/** The tag directory (EventosV2.py:164-186): two lookup tables, vehicle name
    to (project, team) and driver name to (project, team), built from the
    decoded tag list. A tag's own name is the project, its parent's name the
    team. */
module TagDirectory {
  import opened Strings
  import opened Records

  /** (project, team) */
  type Entry = (string, string)

  type TagMapping = map<string, Entry>

  /** Which list of a tag a mapping is built from. */
  datatype MemberKind = Vehicles | Drivers

  function Members(t: Tag, kind: MemberKind): seq<NamedRef> {
    match kind
    case Vehicles => t.vehicles
    case Drivers => t.drivers
  }

  /** The (project, team) a tag assigns (lines 177-178). */
  function TagEntry(t: Tag): Entry {
    (t.name.GetOr(UNKNOWN), NameOr(t.parentTag, UNKNOWN))
  }

  /** The key a vehicle or driver is filed under: its stripped name, `""`
      when it has none (lines 180, 184). */
  function MemberKey(r: NamedRef): string {
    Trim(r.name.GetOr(""))
  }

  /** Some element of `refs` is filed under the non-empty key `k`. */
  ghost predicate Names(refs: seq<NamedRef>, k: string) {
    k != "" && exists i :: 0 <= i < |refs| && MemberKey(refs[i]) == k
  }

  /** The inner loop over one list of a tag (lines 179-182 or 183-186):
      every member with a non-empty key is (re)assigned the tag's entry. */
  function AddMembers(m: TagMapping, refs: seq<NamedRef>, e: Entry): TagMapping {
    if refs == [] then m
    else
      var m' := AddMembers(m, refs[..|refs| - 1], e);
      var k := MemberKey(refs[|refs| - 1]);
      if k != "" then m'[k := e] else m'
  }

  /** The mapping built from all tags, in list order (lines 174-186). */
  function Mapping(tags: seq<Tag>, kind: MemberKind): TagMapping {
    if tags == [] then map[]
    else
      var t := tags[|tags| - 1];
      AddMembers(Mapping(tags[..|tags| - 1], kind), Members(t, kind), TagEntry(t))
  }

  /** One list of a tag adds exactly the non-empty keys of its members, maps
      every one of them to the tag's entry, and leaves every other key as it
      was. */
  lemma {:induction false} AddMembersSpec(m: TagMapping, refs: seq<NamedRef>, e: Entry)
    ensures var r := AddMembers(m, refs, e);
      forall k :: (k in r <==> k in m || Names(refs, k))
                  && (k in r ==> r[k] == if Names(refs, k) then e else m[k])
  {
    if refs != [] {
      var init := refs[..|refs| - 1];
      AddMembersSpec(m, init, e);
      forall k
        ensures Names(refs, k) <==> Names(init, k) || (k != "" && MemberKey(refs[|refs| - 1]) == k)
      {
        if Names(init, k) {
          var i :| 0 <= i < |init| && MemberKey(init[i]) == k;
          assert MemberKey(refs[i]) == k;
        }
      }
    }
  }

  /** A name has an entry exactly when some tag lists it under a non-empty
      key; in particular an empty or blank name never has one. */
  lemma {:induction false} MappingKeys(tags: seq<Tag>, kind: MemberKind, k: string)
    ensures k in Mapping(tags, kind) <==> exists i :: 0 <= i < |tags| && Names(Members(tags[i], kind), k)
    ensures "" !in Mapping(tags, kind)
  {
    if tags != [] {
      var init, t := tags[..|tags| - 1], tags[|tags| - 1];
      MappingKeys(init, kind, k);
      MappingKeys(init, kind, "");
      AddMembersSpec(Mapping(init, kind), Members(t, kind), TagEntry(t));
      if exists i :: 0 <= i < |tags| && Names(Members(tags[i], kind), k) {
        var i :| 0 <= i < |tags| && Names(Members(tags[i], kind), k);
        if i < |tags| - 1 {
          assert Names(Members(init[i], kind), k);
        }
      }
      if exists i :: 0 <= i < |init| && Names(Members(init[i], kind), k) {
        var i :| 0 <= i < |init| && Names(Members(init[i], kind), k);
        assert Names(Members(tags[i], kind), k);
      }
    }
  }

  /** Last write wins: when tag `i` lists `k` and no later tag does, the
      entry for `k` is tag `i`'s (lines 182, 186). */
  lemma {:induction false} MappingLastWins(tags: seq<Tag>, kind: MemberKind, k: string, i: nat)
    requires i < |tags| && Names(Members(tags[i], kind), k)
    requires forall j :: i < j < |tags| ==> !Names(Members(tags[j], kind), k)
    ensures k in Mapping(tags, kind) && Mapping(tags, kind)[k] == TagEntry(tags[i])
  {
    var init, t := tags[..|tags| - 1], tags[|tags| - 1];
    AddMembersSpec(Mapping(init, kind), Members(t, kind), TagEntry(t));
    if i < |tags| - 1 {
      assert !Names(Members(t, kind), k);
      MappingLastWins(init, kind, k, i);
    }
  }

  lemma AddMembersStep(m: TagMapping, refs: seq<NamedRef>, j: nat, e: Entry)
    requires j < |refs|
    ensures AddMembers(m, refs[..j + 1], e)
            == var k := MemberKey(refs[j]);
               if k != "" then AddMembers(m, refs[..j], e)[k := e] else AddMembers(m, refs[..j], e)
  {
    assert refs[..j + 1][..j] == refs[..j];
  }

  lemma MappingStep(tags: seq<Tag>, i: nat, kind: MemberKind)
    requires i < |tags|
    ensures Mapping(tags[..i + 1], kind)
            == AddMembers(Mapping(tags[..i], kind), Members(tags[i], kind), TagEntry(tags[i]))
  {
    assert tags[..i + 1][..i] == tags[..i];
  }

  /** Files every member of `refs` with a non-empty stripped name under
      `entry` (the inner loops, lines 179-186). */
  method AddAll(mapping: TagMapping, refs: seq<NamedRef>, entry: Entry) returns (result: TagMapping)
    ensures result == AddMembers(mapping, refs, entry)
  {
    result := mapping;
    for j := 0 to |refs|
      invariant result == AddMembers(mapping, refs[..j], entry)
    {
      AddMembersStep(mapping, refs, j, entry);
      var name := refs[j].name.GetOr("");
      var key := Trim(name);
      if key != "" {
        result := result[key := entry];
      }
    }
    assert refs[..|refs|] == refs;
  }

  /** `vehicle_mapping` and `driver_mapping` (lines 174-186). */
  method BuildMappings(tags: seq<Tag>) returns (vehicleMapping: TagMapping, driverMapping: TagMapping)
    ensures vehicleMapping == Mapping(tags, Vehicles)
    ensures driverMapping == Mapping(tags, Drivers)
  {
    vehicleMapping, driverMapping := map[], map[];
    for i := 0 to |tags|
      invariant vehicleMapping == Mapping(tags[..i], Vehicles)
      invariant driverMapping == Mapping(tags[..i], Drivers)
    {
      var tag := tags[i];
      var project := tag.name.GetOr(UNKNOWN);
      var team := NameOr(tag.parentTag, UNKNOWN);
      MappingStep(tags, i, Vehicles);
      MappingStep(tags, i, Drivers);
      vehicleMapping := AddAll(vehicleMapping, tag.vehicles, (project, team));
      driverMapping := AddAll(driverMapping, tag.drivers, (project, team));
    }
    assert tags[..|tags|] == tags;
  }
}
