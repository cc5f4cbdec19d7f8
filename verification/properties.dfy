/**
 * The properties object of the GeoJSON Feature: twenty-one fixed keys, the
 * first six copied from the alert, the next fourteen from its `info` block,
 * and the joined area descriptions last.
 */
module Properties {
  import opened Wrappers
  import opened Text
  import opened CapAlert

  /** The keys copied from the `<alert>` element, in output order. */
  const AlertKeys: seq<string> := ["identifier", "sender", "sent", "status", "msgType", "scope"]

  /** The keys copied from the `<info>` block, in output order. */
  const InfoKeys: seq<string> := [
    "category", "event", "urgency", "severity", "certainty", "effective", "onset",
    "expires", "senderName", "headline", "description", "instruction", "web", "contact"
  ]

  const AreaDescKey: string := "areaDesc"

  /** All keys of the properties object, in output order. */
  const PropertyKeys: seq<string> := AlertKeys + InfoKeys + [AreaDescKey]

  /** The properties object as an ordered list of entries; a None value is JSON null. */
  type PropertyList = seq<(string, Option<string>)>

  /** The descriptions of a list of areas, in order; KeyError at the first area without one. */
  function Descriptions(regions: seq<Region>): (r: Result<seq<string>, Error>)
    ensures r.Success? <==> forall i :: 0 <= i < |regions| ==> regions[i].areaDesc.Some?
    ensures r.Success? ==> |r.value| == |regions|
    ensures r.Success? ==> forall i :: 0 <= i < |regions| ==> r.value[i] == regions[i].areaDesc.value
    ensures r.Failure? ==> r.error == KeyError(AreaDescKey)
  {
    if regions == [] then Success([])
    else if regions[0].areaDesc.None? then Failure(KeyError(AreaDescKey))
    else
      var rest :- Descriptions(regions[1..]);
      Success([regions[0].areaDesc.value] + rest)
  }

  /**
   * The area description: one area's description verbatim, or the
   * descriptions of a list of areas joined with ", ". A missing area is
   * iterated over as None, a TypeError.
   */
  function GetAreaDesc(area: Option<AreaValue>): (r: Result<string, Error>)
    ensures area.None? ==> r == Failure(TypeError)
    ensures area.Some? && area.value.Single? ==>
      r == if area.value.region.areaDesc.Some? then Success(area.value.region.areaDesc.value)
           else Failure(KeyError(AreaDescKey))
    ensures area.Some? && area.value.Multiple? ==>
      (r.Success? <==> forall i :: 0 <= i < |area.value.regions| ==> area.value.regions[i].areaDesc.Some?)
    ensures area == Some(Multiple([])) ==> r == Success("")
    ensures area.Some? && area.value.Multiple? && |area.value.regions| == 1 && area.value.regions[0].areaDesc.Some? ==>
      r == Success(area.value.regions[0].areaDesc.value)
    ensures area.Some? && area.value.Multiple? && r.Failure? ==> r == Failure(KeyError(AreaDescKey))
    ensures area.Some? && area.value.Multiple? && |area.value.regions| >= 1 && r.Success? ==>
      var descs := Descriptions(area.value.regions).value;
      r.value == area.value.regions[0].areaDesc.value + Concat(Prefixed(", ", descs[1..]))
  {
    match area
    case None => Failure(TypeError)
    case Some(Single(region)) =>
      if region.areaDesc.Some? then Success(region.areaDesc.value) else Failure(KeyError(AreaDescKey))
    case Some(Multiple(regions)) =>
      var descs :- Descriptions(regions);
      if descs == [] then Success("")
      else
        JoinAsConcat(descs, ", ");
        Success(Join(descs, ", "))
  }

  /**
   * Descriptions without commas are recovered, in order, by splitting the
   * joined description on ',': the first as it was, every later one after
   * the single space of the ", " separator.
   */
  lemma AreaDescPieces(regions: seq<Region>)
    requires |regions| >= 1
    requires forall i :: 0 <= i < |regions| ==> regions[i].areaDesc.Some? && ',' !in regions[i].areaDesc.value
    ensures GetAreaDesc(Some(Multiple(regions))).Success?
    ensures Split(GetAreaDesc(Some(Multiple(regions))).value, ',') ==
      [regions[0].areaDesc.value] + Prefixed(" ", Descriptions(regions).value[1..])
  {
    var descs := Descriptions(regions).value;
    AreaDescIsJoin(regions);
    assert forall i :: 0 <= i < |descs| ==> ',' !in descs[i];
    assert ", " == [','] + " ";
    SplitJoin(descs, ',', " ");
  }

  /** A list of described areas gives its descriptions joined with ", ". */
  lemma AreaDescIsJoin(regions: seq<Region>)
    requires Descriptions(regions).Success?
    ensures GetAreaDesc(Some(Multiple(regions))) == Success(Join(Descriptions(regions).value, ", "))
  {
  }

  /** Two areas described "A" and "B" give "A, B". */
  lemma AreaDescTwoAreas(a: Region, b: Region)
    requires a.areaDesc == Some("A") && b.areaDesc == Some("B")
    ensures GetAreaDesc(Some(Multiple([a, b]))) == Success("A, B")
  {
    var d := Descriptions([a, b]);
    assert d.Success? && |d.value| == 2;
    assert d.value[0] == "A" && d.value[1] == "B";
    assert d.value == ["A", "B"];
    assert ["A", "B"][1..] == ["B"];
    assert Join(["A", "B"], ", ") == "A" + ", " + Join(["B"], ", ");
    assert Join(["B"], ", ") == "B";
    assert "A" + ", " + "B" == "A, B";
    assert GetAreaDesc(Some(Multiple([a, b]))) == Success(Join(d.value, ", "));
  }

  /**
   * The properties object. A missing `info` block is a KeyError; otherwise
   * the only failures are those of the area description.
   */
  function GetProperties(alert: Alert): (r: Result<PropertyList, Error>)
    ensures alert.info.None? ==> r == Failure(KeyError("info"))
    ensures alert.info.Some? ==>
      (r.Success? <==> GetAreaDesc(alert.info.value.area).Success?)
    ensures alert.info.Some? && r.Failure? ==> r.error == GetAreaDesc(alert.info.value.area).error
    ensures r.Success? ==>
      |r.value| == |PropertyKeys| && forall i :: 0 <= i < |PropertyKeys| ==> r.value[i].0 == PropertyKeys[i]
    ensures r.Success? ==>
      forall i :: 0 <= i < |AlertKeys| ==> r.value[i].1 == Get(alert.fields, AlertKeys[i])
    ensures r.Success? ==>
      forall i :: 0 <= i < |InfoKeys| ==> r.value[|AlertKeys| + i].1 == Get(alert.info.value.fields, InfoKeys[i])
    ensures r.Success? ==>
      r.value[|PropertyKeys| - 1].1 == Some(GetAreaDesc(alert.info.value.area).value)
  {
    if alert.info.None? then Failure(KeyError("info"))
    else
      var info := alert.info.value;
      var areaDesc :- GetAreaDesc(info.area);
      Success(Entries(alert.fields, AlertKeys) + Entries(info.fields, InfoKeys) + [(AreaDescKey, Some(areaDesc))])
  }

  /** One entry per key, in order: the key and Python's `m.get(key)`. */
  function Entries(m: map<string, string>, keys: seq<string>): (r: PropertyList)
    ensures |r| == |keys|
    ensures forall i :: 0 <= i < |keys| ==> r[i].0 == keys[i]
    ensures forall i :: 0 <= i < |keys| ==> (r[i].1.Some? <==> keys[i] in m)
    ensures forall i :: 0 <= i < |keys| && keys[i] in m ==> r[i].1 == Some(m[keys[i]])
  {
    seq(|keys|, i requires 0 <= i < |keys| => (keys[i], Get(m, keys[i])))
  }

  // ---------------------------------------------------------------------
  // The properties object as a mapping

  /** The entries as a mapping; a later entry for the same key wins, as in a Python dict literal. */
  function AsMap(entries: PropertyList): map<string, Option<string>> {
    if entries == [] then map[]
    else AsMap(entries[..|entries| - 1])[entries[|entries| - 1].0 := entries[|entries| - 1].1]
  }

  /** No key occurs twice among the entries. */
  predicate DistinctKeys(entries: PropertyList) {
    forall i, j :: 0 <= i < j < |entries| ==> entries[i].0 != entries[j].0
  }

  /** The keys of the entries, in order. */
  function KeyList(entries: PropertyList): (r: seq<string>) {
    seq(|entries|, i requires 0 <= i < |entries| => entries[i].0)
  }

  /** The mapping of entries has exactly their keys. */
  lemma {:induction false} AsMapKeys(entries: PropertyList)
    ensures AsMap(entries).Keys == set k | k in KeyList(entries)
    decreases |entries|
  {
    if entries != [] {
      var init := entries[..|entries| - 1];
      AsMapKeys(init);
      assert KeyList(entries) == KeyList(init) + [entries[|entries| - 1].0];
    }
  }

  /** In the mapping of entries with distinct keys, each key has its own entry's value. */
  lemma {:induction false} AsMapValues(entries: PropertyList, i: nat)
    requires DistinctKeys(entries)
    requires i < |entries|
    ensures entries[i].0 in AsMap(entries) && AsMap(entries)[entries[i].0] == entries[i].1
    decreases |entries|
  {
    var last := |entries| - 1;
    if i < last {
      var init := entries[..last];
      assert DistinctKeys(init);
      AsMapValues(init, i);
      assert init[i] == entries[i];
      assert entries[i].0 != entries[last].0;
    }
  }

  /** The twenty-one keys are pairwise different. */
  lemma PropertyKeysDistinct()
    ensures |PropertyKeys| == 21
    ensures forall i, j :: 0 <= i < j < |PropertyKeys| ==> PropertyKeys[i] != PropertyKeys[j]
  {
  }

  /**
   * Read as a mapping, the properties object has exactly the twenty-one keys;
   * each alert and info key maps to the field's value or to null, and
   * `areaDesc` to the area description.
   */
  lemma PropertiesAsMapping(alert: Alert)
    requires GetProperties(alert).Success?
    ensures AsMap(GetProperties(alert).value).Keys == set k | k in PropertyKeys
    ensures forall k :: k in AlertKeys ==> AsMap(GetProperties(alert).value)[k] == Get(alert.fields, k)
    ensures forall k :: k in InfoKeys ==> AsMap(GetProperties(alert).value)[k] == Get(alert.info.value.fields, k)
    ensures AsMap(GetProperties(alert).value)[AreaDescKey] == Some(GetAreaDesc(alert.info.value.area).value)
  {
    var entries := GetProperties(alert).value;
    PropertyKeysDistinct();
    assert KeyList(entries) == PropertyKeys;
    assert DistinctKeys(entries);
    AsMapKeys(entries);
    forall k | k in AlertKeys ensures AsMap(entries)[k] == Get(alert.fields, k) {
      var i :| 0 <= i < |AlertKeys| && AlertKeys[i] == k;
      AsMapValues(entries, i);
      assert entries[i].0 == k;
    }
    forall k | k in InfoKeys ensures AsMap(entries)[k] == Get(alert.info.value.fields, k) {
      var i :| 0 <= i < |InfoKeys| && InfoKeys[i] == k;
      AsMapValues(entries, |AlertKeys| + i);
      assert entries[|AlertKeys| + i].0 == k;
    }
    AsMapValues(entries, 20);
    assert entries[20].0 == AreaDescKey;
  }
}
