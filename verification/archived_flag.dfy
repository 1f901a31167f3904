/** GeoJsonCheckFlag: the simplified, archived form of a flag. Features are
    kept as opaque JSON objects so that re-serialising never needs to know
    their schema. */
module ArchivedFlag {
  import opened Json

  const IdentifierKey := "id"
  const InstructionsKey := "instructions"
  const GeneratorKey := "generator"
  const TimestampKey := "timestamp"

  /** The five fields; the getters are the datatype's field selectors. */
  datatype GeoJsonCheckFlag = GeoJsonCheckFlag(
    identifier: string,
    instructions: string,
    checkName: string,
    timestamp: string,
    features: seq<map<string, Json>>)

  /** Each setter replaces its own field and keeps the other four. */
  function SetCheckName(f: GeoJsonCheckFlag, checkName: string): (r: GeoJsonCheckFlag)
    ensures r.checkName == checkName
    ensures r.identifier == f.identifier && r.instructions == f.instructions
            && r.timestamp == f.timestamp && r.features == f.features
  {
    f.(checkName := checkName)
  }

  function SetFeatures(f: GeoJsonCheckFlag, features: seq<map<string, Json>>): (r: GeoJsonCheckFlag)
    ensures r.features == features
    ensures r.identifier == f.identifier && r.instructions == f.instructions
            && r.checkName == f.checkName && r.timestamp == f.timestamp
  {
    f.(features := features)
  }

  function SetIdentifier(f: GeoJsonCheckFlag, identifier: string): (r: GeoJsonCheckFlag)
    ensures r.identifier == identifier
    ensures r.instructions == f.instructions && r.checkName == f.checkName
            && r.timestamp == f.timestamp && r.features == f.features
  {
    f.(identifier := identifier)
  }

  function SetInstructions(f: GeoJsonCheckFlag, instructions: string): (r: GeoJsonCheckFlag)
    ensures r.instructions == instructions
    ensures r.identifier == f.identifier && r.checkName == f.checkName
            && r.timestamp == f.timestamp && r.features == f.features
  {
    f.(instructions := instructions)
  }

  function SetTimestamp(f: GeoJsonCheckFlag, timestamp: string): (r: GeoJsonCheckFlag)
    ensures r.timestamp == timestamp
    ensures r.identifier == f.identifier && r.instructions == f.instructions
            && r.checkName == f.checkName && r.features == f.features
  {
    f.(timestamp := timestamp)
  }

  /** The four top-level properties, as a string map. */
  function PropertiesOf(f: GeoJsonCheckFlag): map<string, string> {
    map[IdentifierKey := f.identifier, InstructionsKey := f.instructions,
        GeneratorKey := f.checkName, TimestampKey := f.timestamp]
  }

  /** No stored feature has a null member at any depth. */
  predicate NullFreeFeatures(features: seq<map<string, Json>>) {
    forall i :: 0 <= i < |features| ==> NoNullMembers(JObject(features[i]))
  }

  /** The features as `GSON.toJsonTree` writes them: the GeoJsonCheckFlag's
      Gson does not serialise nulls, so null-valued members are dropped. */
  function WrittenFeatures(features: seq<map<string, Json>>): (r: seq<map<string, Json>>)
    ensures |r| == |features|
    ensures forall i :: 0 <= i < |features| ==> JObject(r[i]) == StripNulls(JObject(features[i]))
    ensures NullFreeFeatures(r)
    ensures NullFreeFeatures(features) ==> r == features
  {
    var r := seq(|features|, i requires 0 <= i < |features| => StripNulls(JObject(features[i])).fields);
    assert NullFreeFeatures(features) ==> r == features by {
      if NullFreeFeatures(features) {
        assert forall i :: 0 <= i < |features| ==> r[i] == features[i];
      }
    }
    r
  }

  /** toString's tree: type, the written features in order, and the four
      properties. A feature without null members is written as it is. */
  function Serialize(f: GeoJsonCheckFlag): (r: Json)
    ensures r.JObject? && r.fields.Keys == {"type", "features", "properties"}
    ensures r.fields["type"] == JString("FeatureCollection")
    ensures r.fields["features"].JArray?
    ensures |r.fields["features"].items| == |f.features|
    ensures forall i :: 0 <= i < |f.features| ==>
              r.fields["features"].items[i] == StripNulls(JObject(f.features[i]))
    ensures r.fields["properties"].JObject?
    ensures r.fields["properties"].fields.Keys == {IdentifierKey, InstructionsKey, GeneratorKey, TimestampKey}
    ensures r.fields["properties"].fields[GeneratorKey] == JString(f.checkName)
  {
    var written := WrittenFeatures(f.features);
    var features := seq(|written|, i requires 0 <= i < |written| => JObject(written[i]));
    JObject(map[
      "type" := JString("FeatureCollection"),
      "features" := JArray(features),
      "properties" := JObject(StringFields(PropertiesOf(f)))])
  }
}
