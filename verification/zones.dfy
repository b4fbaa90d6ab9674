/** Deployment defaults the core reads from its configuration. */
module Config {
  /** `MAX_EMAILS_PER_HOUR_PER_SENDER`: the global per-sender hourly cap. */
  const MaxEmailsPerHourPerSender: nat := 200
}

/**
 * The delivery-zone policy: a static table of five zones, each with a delay
 * multiplier and an hourly-limit cap, and a lookup that never fails.
 */
module DeliveryZones {
  import opened Options

  /** The zone identifiers, in table order. */
  const ZoneIds: seq<string> :=
    ["anantnag", "srinagar", "south-kashmir", "north-kashmir", "outside-kashmir"]

  /** The zone used when none is given or the given one is unknown. */
  const DefaultZoneId: string := "anantnag"

  /** A zone's policy; `delayMultiplier` is an exact rational. */
  datatype DeliveryZoneRule = DeliveryZoneRule(
    id: string,
    labelText: string,
    delayMultiplier: real,
    hourlyLimitCap: nat)

  const Zones: seq<DeliveryZoneRule> := [
    DeliveryZoneRule("anantnag", "Anantnag", 1.0, 200),
    DeliveryZoneRule("srinagar", "Srinagar", 1.0, 200),
    DeliveryZoneRule("south-kashmir", "South Kashmir", 1.15, 150),
    DeliveryZoneRule("north-kashmir", "North Kashmir", 1.2, 150),
    DeliveryZoneRule("outside-kashmir", "Outside Kashmir", 1.35, 100)
  ]

  /**
   * `zonesById.get(id)` for the map built from `rules`: a map built from a
   * list of entries keeps the last entry for a repeated key, so the search
   * runs from the back.
   */
  function FindById(rules: seq<DeliveryZoneRule>, id: string): (r: Option<DeliveryZoneRule>)
    ensures r.Some? ==> r.value in rules && r.value.id == id
    ensures r.None? <==> forall i :: 0 <= i < |rules| ==> rules[i].id != id
  {
    if rules == [] then None
    else if rules[|rules| - 1].id == id then Some(rules[|rules| - 1])
    else
      var r := FindById(rules[..|rules| - 1], id);
      assert forall i :: 0 <= i < |rules| - 1 ==> rules[i] == rules[..|rules| - 1][i];
      r
  }

  /**
   * `getDeliveryZoneRule(zoneId)`: an absent or empty id (both falsy) and an
   * id missing from the table all resolve to the default zone.
   */
  function GetDeliveryZoneRule(zoneId: Option<string>): (r: DeliveryZoneRule)
    ensures r in Zones
    ensures zoneId.None? ==> r == Zones[0] && r.id == DefaultZoneId
    ensures zoneId.Some? && zoneId.value in ZoneIds ==> r.id == zoneId.value
    ensures zoneId.Some? && zoneId.value !in ZoneIds ==> r == Zones[0]
  {
    var fallback := FindById(Zones, DefaultZoneId);
    assert Zones[0].id == DefaultZoneId;
    if zoneId.None? || zoneId.value == "" then fallback.value
    else
      assert forall i :: 0 <= i < |ZoneIds| ==> Zones[i].id == ZoneIds[i];
      FindById(Zones, zoneId.value).GetOr(fallback.value)
  }

  /**
   * The table lists exactly the five identifiers, in order, without
   * repeats; every multiplier is at least 1 and every cap is positive,
   * with caps 200, 200, 150, 150, 100.
   */
  lemma ZoneTableWellFormed()
    ensures |Zones| == |ZoneIds| == 5
    ensures forall i :: 0 <= i < |Zones| ==> Zones[i].id == ZoneIds[i]
    ensures forall i, j :: 0 <= i < j < |ZoneIds| ==> ZoneIds[i] != ZoneIds[j]
    ensures forall i :: 0 <= i < |Zones| ==> Zones[i].delayMultiplier >= 1.0 && Zones[i].hourlyLimitCap > 0
    ensures [Zones[0].hourlyLimitCap, Zones[1].hourlyLimitCap, Zones[2].hourlyLimitCap,
             Zones[3].hourlyLimitCap, Zones[4].hourlyLimitCap] == [200, 200, 150, 150, 100]
  {
  }

  /** Every rule the lookup can return has multiplier at least 1 and a positive cap. */
  lemma LookupRuleBounds(zoneId: Option<string>)
    ensures GetDeliveryZoneRule(zoneId).delayMultiplier >= 1.0
    ensures GetDeliveryZoneRule(zoneId).hourlyLimitCap > 0
    ensures GetDeliveryZoneRule(zoneId).hourlyLimitCap <= 200
  {
    var r := GetDeliveryZoneRule(zoneId);
    assert r in Zones;
    assert exists i :: 0 <= i < |Zones| && Zones[i] == r;
  }

  /** The lookup returns, for each listed identifier, the table entry at that identifier's position. */
  lemma LookupListedId(i: nat)
    requires i < |ZoneIds|
    ensures GetDeliveryZoneRule(Some(ZoneIds[i])) == Zones[i]
  {
    var r := GetDeliveryZoneRule(Some(ZoneIds[i]));
    assert r in Zones;
    assert r.id == ZoneIds[i];
    var k :| 0 <= k < |Zones| && Zones[k] == r;
    assert k == i;
  }
}
