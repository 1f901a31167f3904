/** FlagReader: turning a serialised flag (as its JSON tree) back into a
    GeoJsonCheckFlag, and the round trips with the two serialisers. */
module FlagReader {
  import opened Common
  import opened Json
  import opened ArchivedFlag
  import FlagEvent

  /** What the deserializer needs to succeed: a top-level object whose
      properties object carries the four keys as string-convertible values
      and whose features member is an array of objects. */
  ghost predicate Readable(j: Json) {
    && j.JObject?
    && "properties" in j.fields && j.fields["properties"].JObject?
    && (forall k :: k in {IdentifierKey, InstructionsKey, GeneratorKey, TimestampKey} ==>
          k in j.fields["properties"].fields && AsString(j.fields["properties"].fields[k]).Ok?)
    && "features" in j.fields && j.fields["features"].JArray?
    && (forall i :: 0 <= i < |j.fields["features"].items| ==> j.fields["features"].items[i].JObject?)
  }

  /** GeoJsonCheckFlagDeserializer.deserialize: reads only the known keys,
      in the order the source reads them; any absent or mis-shaped member
      is an exception. */
  function Deserialize(j: Json): (r: Result<GeoJsonCheckFlag>)
    ensures r.Ok? <==> Readable(j)
    ensures r.Ok? ==>
              var props := j.fields["properties"].fields;
              && Ok(r.value.identifier) == AsString(props[IdentifierKey])
              && Ok(r.value.instructions) == AsString(props[InstructionsKey])
              && Ok(r.value.checkName) == AsString(props[GeneratorKey])
              && Ok(r.value.timestamp) == AsString(props[TimestampKey])
              && |r.value.features| == |j.fields["features"].items|
              && forall i :: 0 <= i < |r.value.features| ==>
                   j.fields["features"].items[i] == JObject(r.value.features[i])
  {
    var top :- AsObject(j);
    var propertiesMember :- Member(top, "properties");
    var properties :- AsObject(propertiesMember);
    var identifier :- StringMember(properties, IdentifierKey);
    var instructions :- StringMember(properties, InstructionsKey);
    var generator :- StringMember(properties, GeneratorKey);
    var timestamp :- StringMember(properties, TimestampKey);
    var featuresMember :- Member(top, "features");
    var featureArray :- AsArray(featuresMember);
    var features :- AllObjects(featureArray);
    Ok(GeoJsonCheckFlag(identifier, instructions, generator, timestamp, features))
  }

  /** readFlagFromString on the tree Gson parses the text into: the literal
      `null` gives null without the deserializer being called (Gson's
      adapter is null-safe); any other tree is handed to the deserializer. */
  function ReadFlagFromString(j: Json): (r: Result<Option<GeoJsonCheckFlag>>)
    ensures r == Ok(None) <==> j.JNull?
    ensures r.Err? <==> !j.JNull? && !Readable(j)
    ensures r.Ok? && r.value.Some? ==> Deserialize(j) == Ok(r.value.value)
  {
    if j.JNull? then Ok(None)
    else
      var flag :- Deserialize(j);
      Ok(Some(flag))
  }

  /** Decoding what the archived record serialises to gives the record back
      with its features as written, which is the record itself when no
      feature has a null member. */
  lemma DecodeSerialized(f: GeoJsonCheckFlag)
    ensures Deserialize(Serialize(f)) == Ok(SetFeatures(f, WrittenFeatures(f.features)))
    ensures NullFreeFeatures(f.features) ==> Deserialize(Serialize(f)) == Ok(f)
  {
    var j := Serialize(f);
    assert Readable(j);
    var g := Deserialize(j).value;
    assert g.features == WrittenFeatures(f.features);
  }

  /** The canonical shape both serialisers produce. */
  ghost predicate Canonical(j: Json) {
    && j.JObject? && j.fields.Keys == {"type", "features", "properties"}
    && j.fields["type"] == JString("FeatureCollection")
    && j.fields["properties"].JObject?
    && j.fields["properties"].fields.Keys == {IdentifierKey, InstructionsKey, GeneratorKey, TimestampKey}
    && forall k :: k in j.fields["properties"].fields ==> j.fields["properties"].fields[k].JString?
  }

  /** Decode followed by re-serialise keeps a canonical record except that
      null members of its features are dropped; it is the identity when
      there are none. */
  lemma SerializeDecoded(j: Json)
    requires Canonical(j) && Deserialize(j).Ok?
    ensures var s := Serialize(Deserialize(j).value);
            && s.JObject? && s.fields.Keys == j.fields.Keys
            && s.fields["type"] == j.fields["type"]
            && s.fields["properties"] == j.fields["properties"]
            && s.fields["features"].JArray?
            && |s.fields["features"].items| == |j.fields["features"].items|
            && forall i :: 0 <= i < |j.fields["features"].items| ==>
                 s.fields["features"].items[i] == StripNulls(j.fields["features"].items[i])
    ensures (forall i :: 0 <= i < |j.fields["features"].items| ==> NoNullMembers(j.fields["features"].items[i])) ==>
              Serialize(Deserialize(j).value) == j
  {
    var f := Deserialize(j).value;
    var s := Serialize(f);
    assert s.fields["properties"].fields == j.fields["properties"].fields;
    if forall i :: 0 <= i < |j.fields["features"].items| ==> NoNullMembers(j.fields["features"].items[i]) {
      assert s.fields["features"] == j.fields["features"];
      assert s.fields == j.fields;
    }
  }

  /** A feature whose properties hold a null ItemId loses that member on
      the way out, so the record does not read back as itself. */
  lemma NullMemberDropped()
    ensures var feature := map["type" := JString("Feature"), "properties" := JObject(map["ItemId" := JNull])];
            var f := GeoJsonCheckFlag("1", "text", "Check", "now", [feature]);
            && Deserialize(Serialize(f))
               == Ok(SetFeatures(f, [map["type" := JString("Feature"), "properties" := JObject(map[])]]))
            && Deserialize(Serialize(f)) != Ok(f)
  {
    var inner := map["ItemId" := JNull];
    var feature := map["type" := JString("Feature"), "properties" := JObject(inner)];
    var f := GeoJsonCheckFlag("1", "text", "Check", "now", [feature]);
    DecodeSerialized(f);
    assert StripNulls(JObject(inner)) == JObject(map[]);
    var written := map["type" := JString("Feature"), "properties" := JObject(map[])];
    assert StripNulls(JObject(feature)).fields == written by {
      var r := StripNulls(JObject(feature));
      assert r.fields.Keys == written.Keys;
      assert r.fields["properties"] == StripNulls(JObject(inner));
      assert r.fields["type"] == StripNulls(JString("Feature"));
    }
    assert WrittenFeatures([feature]) == [written];
    assert written != feature by {
      assert feature["properties"] != written["properties"] by {
        assert "ItemId" in inner;
      }
    }
  }

  /** The archived record a CheckFlagEvent's toString decodes to. */
  function ArchivedOf(event: FlagEvent.CheckFlagEvent): GeoJsonCheckFlag {
    var features := FlagEvent.Features(event.flag.objects);
    GeoJsonCheckFlag(event.flag.identifier, event.flag.instructions, event.checkName, event.timestamp,
                     seq(|features|, i requires 0 <= i < |features| => features[i].fields))
  }

  /** Reading a CheckFlagEvent's toString keeps identifier, instructions,
      check name, timestamp and the features (so their count). When the
      coordinates are the builder's, re-serialising the result reproduces
      the event's tree exactly, so the two texts have the same length. */
  lemma {:induction false} EventRoundTrip(event: FlagEvent.CheckFlagEvent)
    ensures Deserialize(FlagEvent.ToGeoJsonFeatureCollection(event)) == Ok(ArchivedOf(event))
    ensures |ArchivedOf(event).features| == |FlagEvent.Features(event.flag.objects)|
    ensures FlagEvent.BuiltCoordinates(event.flag.objects) ==>
              Serialize(ArchivedOf(event)) == FlagEvent.ToGeoJsonFeatureCollection(event)
  {
    var j := FlagEvent.ToGeoJsonFeatureCollection(event);
    assert Readable(j);
    var f := Deserialize(j).value;
    assert f.features == ArchivedOf(event).features;
    assert Canonical(j);
    if FlagEvent.BuiltCoordinates(event.flag.objects) {
      FlagEvent.FeaturesHaveNoNullMembers(event.flag.objects);
      SerializeDecoded(j);
    }
  }

  /** The fields of a decoded CheckFlagEvent, one by one. */
  lemma DecodedEventFields(event: FlagEvent.CheckFlagEvent)
    ensures var r := Deserialize(FlagEvent.ToGeoJsonFeatureCollection(event));
            && r.Ok?
            && r.value.identifier == event.flag.identifier
            && r.value.instructions == event.flag.instructions
            && r.value.checkName == event.checkName
            && r.value.timestamp == event.timestamp
            && |r.value.features| == |FlagEvent.Features(event.flag.objects)|
  {
    EventRoundTrip(event);
  }

  // ----- the reader's unit tests, as lemmas -----

  const TestInstruction := "This is a test flag."

  /** A node flagged with the ItemType the atlas gives nodes. */
  function TestNode(id: string, coordinates: Json): FlagEvent.FlaggedObject {
    FlagEvent.FlaggedObject(coordinates, map["ItemId" := id, "ItemType" := "Node"])
  }

  /** The test rule's one-node event: node 1000000 flagged by Check1. */
  function OneNodeEvent(coordinates: Json, timestamp: string): FlagEvent.CheckFlagEvent {
    FlagEvent.CheckFlagEvent("Check1",
      FlagEvent.CheckFlag("1000000", TestInstruction, [TestNode("1000000", coordinates)], None), timestamp)
  }

  /** The test rule's two-node event: nodes 1000000 and 2000000 flagged by
      Check2 under the concatenated identifier. */
  function TwoNodeEvent(c1: Json, c2: Json, timestamp: string): FlagEvent.CheckFlagEvent {
    FlagEvent.CheckFlagEvent("Check2",
      FlagEvent.CheckFlag("1000000" + "2000000", TestInstruction,
                          [TestNode("1000000", c1), TestNode("2000000", c2)], None), timestamp)
  }

  lemma TestInstructionContained()
    ensures IsSubstring(TestInstruction, TestInstruction)
  {
    assert TestInstruction[..|TestInstruction|] == TestInstruction;
  }

  /** oneFeatureTest. */
  lemma OneFeature(coordinates: Json, timestamp: string)
    ensures var r := Deserialize(FlagEvent.ToGeoJsonFeatureCollection(OneNodeEvent(coordinates, timestamp)));
            && r.Ok?
            && r.value.identifier == "1000000"
            && IsSubstring(TestInstruction, r.value.instructions)
            && r.value.checkName == "Check1"
            && |r.value.features| == 1
  {
    var event := OneNodeEvent(coordinates, timestamp);
    DecodedEventFields(event);
    FlagEvent.FeaturesSingle(TestNode("1000000", coordinates));
    TestInstructionContained();
  }

  /** twoFeaturesTest. */
  lemma TwoFeatures(c1: Json, c2: Json, timestamp: string)
    ensures var r := Deserialize(FlagEvent.ToGeoJsonFeatureCollection(TwoNodeEvent(c1, c2, timestamp)));
            && r.Ok?
            && r.value.identifier == "1000000" + "2000000"
            && IsSubstring(TestInstruction, r.value.instructions)
            && r.value.checkName == "Check2"
            && |r.value.features| == 2
  {
    var a := TestNode("1000000", c1);
    var b := TestNode("2000000", c2);
    var event := TwoNodeEvent(c1, c2, timestamp);
    DecodedEventFields(event);
    assert |FlagEvent.Features([a, b])| == 2 by {
      FlagEvent.FeaturesAppend([a], [b]);
      assert [a] + [b] == [a, b];
      FlagEvent.FeaturesSingle(a);
      FlagEvent.FeaturesSingle(b);
    }
    TestInstructionContained();
  }

  /** reserializeTest: the re-serialised two-node flag has the event's tree,
      hence the same text. */
  lemma Reserialize(c1: Json, c2: Json, timestamp: string)
    ensures var j := FlagEvent.ToGeoJsonFeatureCollection(TwoNodeEvent(c1, c2, timestamp));
            && Deserialize(j).Ok?
            && (FlagEvent.BuiltCoordinates(TwoNodeEvent(c1, c2, timestamp).flag.objects) ==>
                  Serialize(Deserialize(j).value) == j)
  {
    EventRoundTrip(TwoNodeEvent(c1, c2, timestamp));
  }

  /** A record without a properties object, or missing one required key,
      does not decode. */
  lemma MissingKeysFail(j: Json, key: string)
    requires j.JObject?
    requires key in {IdentifierKey, InstructionsKey, GeneratorKey, TimestampKey}
    requires "properties" !in j.fields
             || (j.fields["properties"].JObject? && key !in j.fields["properties"].fields)
    ensures Deserialize(j).Err?
  {
  }
}
