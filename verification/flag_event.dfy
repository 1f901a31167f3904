/** CheckFlagEvent: a check's flag wrapped with the check name and the event
    timestamp, and its conversion to GeoJSON FeatureCollection trees. */
module FlagEvent {
  import opened Common
  import opened Json

  /** The GeoJSON geometry a flagged object is drawn as. */
  datatype GeometryKind = Point | LineString | Polygon {
    function TypeName(): string {
      match this
      case Point => "Point"
      case LineString => "LineString"
      case Polygon => "Polygon"
    }
  }

  /** An object cited by a flag: its coordinates (opaque here) and its own
      string properties, which may include ItemType and ItemId. */
  datatype FlaggedObject = FlaggedObject(coordinates: Json, properties: map<string, string>)

  /** A flag as the rules produce it. `instructions` is the text the
      flag reports through getInstructions. */
  datatype CheckFlag = CheckFlag(
    identifier: string,
    instructions: string,
    objects: seq<FlaggedObject>,
    challengeName: Option<string>)

  /** The event carrying a flag; the timestamp is kept as its text form. */
  datatype CheckFlagEvent = CheckFlagEvent(checkName: string, flag: CheckFlag, timestamp: string)

  const ItemTypeKey := "ItemType"
  const HighwayKey := "highway"

  /** Geometry chosen from the ItemType property; None drops the object. */
  function GeometryKindOf(o: FlaggedObject): Option<GeometryKind> {
    if ItemTypeKey in o.properties then
      var itemType := o.properties[ItemTypeKey];
      if itemType == "Node" || itemType == "Point" then Some(Point)
      else if itemType == "Edge" || itemType == "Line" then Some(LineString)
      else if itemType == "Area" then Some(Polygon)
      else None
    else
      // objects without an ItemType are bare locations, drawn as points
      Some(Point)
  }

  predicate Classifiable(o: FlaggedObject) {
    GeometryKindOf(o).Some?
  }

  /** The builder's feature for one object, carrying the object's properties. */
  function FeatureOf(o: FlaggedObject, kind: GeometryKind): Json {
    JObject(map[
      "type" := JString("Feature"),
      "geometry" := JObject(map["type" := JString(kind.TypeName()), "coordinates" := o.coordinates]),
      "properties" := JObject(StringFields(o.properties))])
  }

  /** The GeoJSON geometry type a feature is drawn with. */
  function GeometryTypeOf(feature: Json): Option<string> {
    if feature.JObject? && "geometry" in feature.fields
       && feature.fields["geometry"].JObject? && "type" in feature.fields["geometry"].fields
       && feature.fields["geometry"].fields["type"].JString?
    then Some(feature.fields["geometry"].fields["type"].s)
    else None
  }

  /** Feature `f` is the encoding of some classifiable object of the list. */
  ghost predicate EncodesSomeObject(f: Json, objects: seq<FlaggedObject>) {
    exists i :: 0 <= i < |objects| && Classifiable(objects[i])
                && f == FeatureOf(objects[i], GeometryKindOf(objects[i]).value)
  }

  lemma EncodesSomeObjectCons(f: Json, objects: seq<FlaggedObject>)
    requires |objects| > 0
    requires EncodesSomeObject(f, objects[1..])
    ensures EncodesSomeObject(f, objects)
  {
    var j :| 0 <= j < |objects[1..]| && Classifiable(objects[1..][j])
             && f == FeatureOf(objects[1..][j], GeometryKindOf(objects[1..][j]).value);
    assert objects[1..][j] == objects[j + 1];
  }

  /** The loop over the flagged objects: one feature per classifiable
      object, in order. */
  function Features(objects: seq<FlaggedObject>): (r: seq<Json>)
    ensures |r| <= |objects|
    ensures |r| == |objects| <==> forall i :: 0 <= i < |objects| ==> Classifiable(objects[i])
    ensures forall k :: 0 <= k < |r| ==> r[k].JObject? && EncodesSomeObject(r[k], objects)
  {
    if |objects| == 0 then []
    else
      var rest := Features(objects[1..]);
      assert forall k :: 0 <= k < |rest| ==> EncodesSomeObject(rest[k], objects) by {
        forall k | 0 <= k < |rest| ensures EncodesSomeObject(rest[k], objects) {
          EncodesSomeObjectCons(rest[k], objects);
        }
      }
      match GeometryKindOf(objects[0])
      case Some(kind) =>
        assert EncodesSomeObject(FeatureOf(objects[0], kind), objects);
        [FeatureOf(objects[0], kind)] + rest
      case None =>
        assert !(forall i :: 0 <= i < |objects| ==> Classifiable(objects[i]));
        rest
  }

  /** Coordinates as the geometry builder makes them: arrays of numbers, so
      neither null nor holding a null member. */
  predicate BuiltCoordinates(objects: seq<FlaggedObject>) {
    forall i :: 0 <= i < |objects| ==>
      !objects[i].coordinates.JNull? && NoNullMembers(objects[i].coordinates)
  }

  /** With built coordinates, no feature has a null member: every other
      value a feature holds is a string or an object of strings. */
  lemma FeaturesHaveNoNullMembers(objects: seq<FlaggedObject>)
    requires BuiltCoordinates(objects)
    ensures forall k :: 0 <= k < |Features(objects)| ==> NoNullMembers(Features(objects)[k])
  {
    var fs := Features(objects);
    forall k | 0 <= k < |fs| ensures NoNullMembers(fs[k]) {
      var i :| 0 <= i < |objects| && Classifiable(objects[i])
               && fs[k] == FeatureOf(objects[i], GeometryKindOf(objects[i]).value);
      FeatureHasNoNullMembers(objects[i], GeometryKindOf(objects[i]).value);
    }
  }

  lemma FeatureHasNoNullMembers(o: FlaggedObject, kind: GeometryKind)
    requires !o.coordinates.JNull? && NoNullMembers(o.coordinates)
    ensures NoNullMembers(FeatureOf(o, kind))
  {
    var geometryFields := map["type" := JString(kind.TypeName()), "coordinates" := o.coordinates];
    assert NoNullMembers(JObject(geometryFields)) by {
      forall k | k in geometryFields ensures !geometryFields[k].JNull? && NoNullMembers(geometryFields[k]) {
        if k == "type" {
          assert geometryFields[k] == JString(kind.TypeName());
        } else {
          assert geometryFields[k] == o.coordinates;
        }
      }
    }
    var properties := JObject(StringFields(o.properties));
    assert NoNullMembers(properties);
    var fields := map["type" := JString("Feature"), "geometry" := JObject(geometryFields), "properties" := properties];
    assert FeatureOf(o, kind) == JObject(fields);
    forall k | k in fields ensures !fields[k].JNull? && NoNullMembers(fields[k]) {
      if k == "type" {
        assert fields[k] == JString("Feature");
      } else if k == "geometry" {
        assert fields[k] == JObject(geometryFields);
      } else {
        assert fields[k] == properties;
      }
    }
  }

  /** Encoding distributes over concatenation, so the relative order of the
      objects is the order of their features. */
  lemma {:induction false} FeaturesAppend(a: seq<FlaggedObject>, b: seq<FlaggedObject>)
    ensures Features(a + b) == Features(a) + Features(b)
    decreases |a|
  {
    if |a| == 0 {
      assert a + b == b;
    } else {
      assert (a + b)[1..] == a[1..] + b;
      assert (a + b)[0] == a[0];
      FeaturesAppend(a[1..], b);
    }
  }

  /** The encoding of a single object: which geometry it gets from its
      ItemType, that unclassifiable ones vanish, and that the feature
      carries exactly the object's own properties. */
  lemma SingleObjectFeature(o: FlaggedObject)
    ensures |Features([o])| <= 1
    ensures Features([o]) == [] <==>
              ItemTypeKey in o.properties
              && o.properties[ItemTypeKey] !in {"Node", "Point", "Edge", "Line", "Area"}
    ensures |Features([o])| == 1 ==>
              var f := Features([o])[0];
              && f.JObject?
              && f.fields["properties"] == JObject(StringFields(o.properties))
              && (GeometryTypeOf(f) == Some("Point") <==>
                    ItemTypeKey !in o.properties || o.properties[ItemTypeKey] in {"Node", "Point"})
              && (GeometryTypeOf(f) == Some("LineString") <==>
                    ItemTypeKey in o.properties && o.properties[ItemTypeKey] in {"Edge", "Line"})
              && (GeometryTypeOf(f) == Some("Polygon") <==>
                    ItemTypeKey in o.properties && o.properties[ItemTypeKey] == "Area")
  {
    FeaturesSingle(o);
  }

  /** The encoding of a one-object list. */
  lemma FeaturesSingle(o: FlaggedObject)
    ensures Features([o]) == (if Classifiable(o) then [FeatureOf(o, GeometryKindOf(o).value)] else [])
  {
    assert [o][1..] == [];
    assert [o][0] == o;
  }

  /** Dropping an unclassifiable object from anywhere leaves the encoding unchanged. */
  lemma UnclassifiableOmitted(before: seq<FlaggedObject>, o: FlaggedObject, after: seq<FlaggedObject>)
    requires !Classifiable(o)
    ensures Features(before + [o] + after) == Features(before + after)
  {
    FeaturesAppend(before + [o], after);
    FeaturesAppend(before, [o]);
    FeaturesSingle(o);
    assert Features(before + [o]) == Features(before);
    FeaturesAppend(before, after);
  }

  /** A GeoJSON FeatureCollection as the geometry builder produces it. */
  function FeatureCollection(features: seq<Json>): map<string, Json> {
    map["type" := JString("FeatureCollection"), "features" := JArray(features)]
  }

  /** flagToFeature: the collection of the flag's features, the identifier at
      the top level, and a properties object holding the instructions
      overlaid with the additional properties. */
  function FlagToFeature(flag: CheckFlag, additional: map<string, string>): (r: Json)
    ensures r.JObject? && r.fields.Keys == {"type", "features", "id", "properties"}
    ensures r.fields["id"] == JString(flag.identifier)
    ensures r.fields["features"] == JArray(Features(flag.objects))
    ensures r.fields["properties"].JObject?
    ensures var props := r.fields["properties"].fields;
            && props.Keys == {"instructions"} + additional.Keys
            && (forall k :: k in additional ==> props[k] == JString(additional[k]))
            && ("instructions" !in additional ==> props["instructions"] == JString(flag.instructions))
            && ("id" in props <==> "id" in additional)
  {
    var flagProperties := map["instructions" := JString(flag.instructions)] + StringFields(additional);
    JObject(FeatureCollection(Features(flag.objects))["id" := JString(flag.identifier)]
                                                     ["properties" := JObject(flagProperties)])
  }

  /** flagToJson: the features the GeoJSON builder makes of the flag's
      location iterable (given, since `getLocationIterableProperties` is not
      part of this model), with a properties object holding the identifier
      and the instructions, overlaid with the additional properties (which
      win on a clash). */
  function FlagToJson(flag: CheckFlag, features: seq<Json>, additional: map<string, string>): (r: Json)
    ensures r.JObject? && r.fields.Keys == {"type", "features", "properties"}
    ensures r.fields["type"] == JString("FeatureCollection")
    ensures r.fields["features"] == JArray(features)
    ensures r.fields["properties"].JObject?
    ensures var props := r.fields["properties"].fields;
            && props.Keys == {"id", "instructions"} + additional.Keys
            && (forall k :: k in additional ==> props[k] == JString(additional[k]))
            && ("id" !in additional ==> props["id"] == JString(flag.identifier))
            && ("instructions" !in additional ==> props["instructions"] == JString(flag.instructions))
  {
    var flagProperties := map["id" := JString(flag.identifier), "instructions" := JString(flag.instructions)]
                          + StringFields(additional);
    JObject(FeatureCollection(features)["properties" := JObject(flagProperties)])
  }

  /** toGeoJsonFeature: the challenge name (or the check name), the fixed
      generator "AtlasChecks" and the timestamp are the additional properties. */
  function ToGeoJsonFeature(event: CheckFlagEvent): (r: Json)
    ensures r.JObject? && r.fields.Keys == {"type", "features", "id", "properties"}
    ensures r.fields["id"] == JString(event.flag.identifier)
    ensures r.fields["type"] == JString("FeatureCollection")
    ensures r.fields["features"] == JArray(Features(event.flag.objects))
    ensures r.fields["properties"].JObject?
    ensures var props := r.fields["properties"].fields;
            && props.Keys == {"instructions", "name", "generator", "timestamp"}
            && props["instructions"] == JString(event.flag.instructions)
            && props["name"] == JString(event.flag.challengeName.GetOr(event.checkName))
            && props["generator"] == JString("AtlasChecks")
            && props["timestamp"] == JString(event.timestamp)
  {
    FlagToFeature(event.flag, map[
      "name" := event.flag.challengeName.GetOr(event.checkName),
      "generator" := "AtlasChecks",
      "timestamp" := event.timestamp])
  }

  /** toGeoJsonFeatureCollection (and toString, which prints it): exactly
      id, instructions, generator (the check name) and timestamp. The
      location iterable's features are taken to be the per-object encoding
      that flagToFeature uses. */
  function ToGeoJsonFeatureCollection(event: CheckFlagEvent): (r: Json)
    ensures r.JObject? && r.fields.Keys == {"type", "features", "properties"}
    ensures r.fields["type"] == JString("FeatureCollection")
    ensures r.fields["features"] == JArray(Features(event.flag.objects))
    ensures r.fields["properties"].JObject?
    ensures var props := r.fields["properties"].fields;
            && props.Keys == {"id", "instructions", "generator", "timestamp"}
            && props["id"] == JString(event.flag.identifier)
            && props["instructions"] == JString(event.flag.instructions)
            && props["generator"] == JString(event.checkName)
            && props["timestamp"] == JString(event.timestamp)
  {
    FlagToJson(event.flag, Features(event.flag.objects), map["generator" := event.checkName, "timestamp" := event.timestamp])
  }

  // ----- the highway decorator -----

  /** HighwayTag as an abstract total order: each enum constant name maps to
      its importance (higher is more important). A name outside the map is
      what `HighwayTag.valueOf` rejects. */
  datatype HighwayScale = HighwayScale(importance: map<string, int>) {
    ghost predicate Valid() {
      "NO" in importance
    }
  }

  /** One feature's highway tag: the cast to JsonObject, the primitive read
      of "highway", upper-casing and valueOf. */
  function FeatureHighway(scale: HighwayScale, feature: Json): Result<Option<string>> {
    if !feature.JObject? then Err(ClassCast)
    else if HighwayKey !in feature.fields then Ok(None)
    else
      var value := feature.fields[HighwayKey];
      if value.JNull? || value.JArray? || value.JObject? then Err(ClassCast)
      else
        var text :- AsString(value);
        var name := ToUpper(text);
        if name in scale.importance then Ok(Some(name)) else Err(IllegalArgument)
  }

  /** The fold of featureDecorator: `highest` is the tag kept so far. */
  function HighestHighway(scale: HighwayScale, features: seq<Json>, highest: Option<string>): (r: Result<Option<string>>)
    requires scale.Valid()
    requires highest.Some? ==> highest.value in scale.importance
    ensures r.Ok? <==> forall i :: 0 <= i < |features| ==> FeatureHighway(scale, features[i]).Ok?
    ensures r.Ok? && r.value.Some? ==> r.value.value in scale.importance
    decreases |features|
  {
    if |features| == 0 then Ok(highest)
    else
      var baseline := if highest.Some? then highest.value else "NO";
      var tag :- FeatureHighway(scale, features[0]);
      var next := if tag.Some? && scale.importance[baseline] < scale.importance[tag.value] then tag else highest;
      var rest := HighestHighway(scale, features[1..], next);
      assert forall i :: 1 <= i < |features| ==> features[i] == features[1..][i - 1];
      rest
  }

  /** A feature offers tag `t`. */
  ghost predicate Offers(scale: HighwayScale, features: seq<Json>, t: string) {
    exists i :: 0 <= i < |features| && FeatureHighway(scale, features[i]) == Ok(Some(t))
  }

  /** featureDecorator: "highway=<value>" of the most important tag offered,
      provided it is more important than NO. */
  function FeatureDecorator(scale: HighwayScale, features: seq<Json>): Result<Option<string>>
    requires scale.Valid()
  {
    var highest :- HighestHighway(scale, features, None);
    Ok(if highest.Some? then Some(HighwayKey + "=" + ToLower(highest.value)) else None)
  }

  /** The fold keeps the maximum: the kept tag beats NO and every tag offered
      so far, and is itself offered (or was the starting value). */
  lemma {:induction false} HighestHighwayIsMaximum(scale: HighwayScale, features: seq<Json>, highest: Option<string>)
    requires scale.Valid()
    requires highest.Some? ==> highest.value in scale.importance
                               && scale.importance["NO"] < scale.importance[highest.value]
    requires HighestHighway(scale, features, highest).Ok?
    ensures var r := HighestHighway(scale, features, highest).value;
            && (r.Some? ==> scale.importance["NO"] < scale.importance[r.value]
                            && (r == highest || Offers(scale, features, r.value)))
            && (forall i :: 0 <= i < |features| && FeatureHighway(scale, features[i]).value.Some? ==>
                  var t := FeatureHighway(scale, features[i]).value.value;
                  scale.importance[t] <= scale.importance["NO"]
                  || (r.Some? && scale.importance[t] <= scale.importance[r.value]))
            && (r.None? ==> highest.None?)
            && (highest.Some? ==> r.Some? && scale.importance[highest.value] <= scale.importance[r.value])
    decreases |features|
  {
    if |features| == 0 {
    } else {
      var baseline := if highest.Some? then highest.value else "NO";
      var tag := FeatureHighway(scale, features[0]).value;
      var next := if tag.Some? && scale.importance[baseline] < scale.importance[tag.value] then tag else highest;
      assert HighestHighway(scale, features, highest) == HighestHighway(scale, features[1..], next);
      HighestHighwayIsMaximum(scale, features[1..], next);
      var r := HighestHighway(scale, features, highest).value;
      if r.Some? && r != highest && r != next {
        var j :| 0 <= j < |features[1..]| && FeatureHighway(scale, features[1..][j]) == Ok(Some(r.value));
        assert features[1..][j] == features[j + 1];
      }
      if r.Some? && r != highest && r == next {
        assert FeatureHighway(scale, features[0]) == Ok(Some(r.value));
      }
      forall i | 0 <= i < |features| && FeatureHighway(scale, features[i]).value.Some?
        ensures var t := FeatureHighway(scale, features[i]).value.value;
                scale.importance[t] <= scale.importance["NO"]
                || (r.Some? && scale.importance[t] <= scale.importance[r.value])
      {
        if i > 0 {
          assert features[i] == features[1..][i - 1];
        }
      }
    }
  }

  /** featureDecorator's promise: empty exactly when no feature offers a
      tag more important than NO; otherwise the most important offered tag. */
  lemma DecoratorIsMostImportant(scale: HighwayScale, features: seq<Json>)
    requires scale.Valid()
    ensures FeatureDecorator(scale, features).Ok? <==>
              forall i :: 0 <= i < |features| ==> FeatureHighway(scale, features[i]).Ok?
    ensures FeatureDecorator(scale, features) == Ok(None) <==>
              && (forall i :: 0 <= i < |features| ==> FeatureHighway(scale, features[i]).Ok?)
              && (forall t :: Offers(scale, features, t) ==> scale.importance[t] <= scale.importance["NO"])
    ensures FeatureDecorator(scale, features).Ok? && FeatureDecorator(scale, features).value.Some? ==>
              exists t :: && Offers(scale, features, t)
                          && scale.importance["NO"] < scale.importance[t]
                          && FeatureDecorator(scale, features).value.value == HighwayKey + "=" + ToLower(t)
                          && forall u :: Offers(scale, features, u) ==> scale.importance[u] <= scale.importance[t]
  {
    if HighestHighway(scale, features, None).Ok? {
      HighestHighwayIsMaximum(scale, features, None);
      var r := HighestHighway(scale, features, None).value;
      forall u | Offers(scale, features, u)
        ensures scale.importance[u] <= scale.importance["NO"] || (r.Some? && scale.importance[u] <= scale.importance[r.value])
      {
        var i :| 0 <= i < |features| && FeatureHighway(scale, features[i]) == Ok(Some(u));
      }
      if r.Some? {
        forall u | Offers(scale, features, u)
          ensures scale.importance[u] <= scale.importance[r.value]
        {
          var i :| 0 <= i < |features| && FeatureHighway(scale, features[i]) == Ok(Some(u));
        }
        assert Offers(scale, features, r.value);
      } else {
        if FeatureDecorator(scale, features) != Ok(None) {
          assert false;
        }
      }
      if r.Some? {
        assert !(forall t :: Offers(scale, features, t) ==> scale.importance[t] <= scale.importance["NO"]);
      }
    }
  }
}
