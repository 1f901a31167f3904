/** AtlasChecksLogDiffSubCommand: groups two sets of archived flag records by
    check and identifier and reports the source records that the target
    lacks (missing) or whose cited items differ (changed). */
module LogDiff {
  import opened Common
  import opened Json

  /** check name -> flag identifier -> record, as filled by mapFeatures. */
  type Index = map<string, map<string, Json>>

  // ----- grouping (mapFeatures) -----

  /** The grouping key of one parsed line: properties.generator, then
      properties.id. */
  function RecordKey(record: Json): Result<(string, string)> {
    var top :- AsObject(record);
    var propertiesMember :- Member(top, "properties");
    var properties :- AsObject(propertiesMember);
    var check :- StringMember(properties, "generator");
    var identifier :- StringMember(properties, "id");
    Ok((check, identifier))
  }

  /** One put into the nested map, creating the check's map on first use. */
  function Insert(index: Index, check: string, identifier: string, record: Json): (r: Index)
    ensures r.Keys == index.Keys + {check}
    ensures identifier in r[check] && r[check][identifier] == record
    ensures forall c, id :: c in index && id in index[c] && (c, id) != (check, identifier) ==>
              c in r && id in r[c] && r[c][id] == index[c][id]
    ensures forall id :: id in r[check] ==> id == identifier || (check in index && id in index[check])
  {
    var perCheck := if check in index then index[check] else map[];
    index[check := perCheck[identifier := record]]
  }

  /** mapFeatures over the already-parsed lines of one file, in order. A line
      whose key cannot be read throws out of the whole command. */
  function MapFeatures(lines: seq<Json>, index: Index): (r: Result<Index>)
    ensures r.Ok? <==> forall i :: 0 <= i < |lines| ==> RecordKey(lines[i]).Ok?
    decreases |lines|
  {
    if |lines| == 0 then Ok(index)
    else
      var key :- RecordKey(lines[0]);
      var rest := MapFeatures(lines[1..], Insert(index, key.0, key.1, lines[0]));
      assert forall i :: 1 <= i < |lines| ==> lines[i] == lines[1..][i - 1];
      rest
  }

  predicate Has(index: Index, check: string, identifier: string) {
    check in index && identifier in index[check]
  }

  /** Line `i` is keyed (check, identifier). */
  ghost predicate KeyedAt(lines: seq<Json>, i: int, check: string, identifier: string)
    requires 0 <= i < |lines|
  {
    RecordKey(lines[i]) == Ok((check, identifier))
  }

  ghost predicate SomeLineKeyed(lines: seq<Json>, check: string, identifier: string) {
    exists i :: 0 <= i < |lines| && KeyedAt(lines, i, check, identifier)
  }

  /** No later line shares line `i`'s key. */
  ghost predicate LastOfItsKey(lines: seq<Json>, i: int)
    requires 0 <= i < |lines|
  {
    forall j :: i < j < |lines| ==> RecordKey(lines[j]) != RecordKey(lines[i])
  }

  /** Every record sits under its own key. */
  ghost predicate WellKeyed(index: Index) {
    forall c, id :: Has(index, c, id) ==> RecordKey(index[c][id]) == Ok((c, id))
  }

  lemma SomeLineKeyedCons(lines: seq<Json>, check: string, identifier: string)
    requires |lines| > 0
    ensures SomeLineKeyed(lines, check, identifier) <==>
              KeyedAt(lines, 0, check, identifier) || SomeLineKeyed(lines[1..], check, identifier)
  {
    if SomeLineKeyed(lines, check, identifier) && !KeyedAt(lines, 0, check, identifier) {
      var i :| 0 <= i < |lines| && KeyedAt(lines, i, check, identifier);
      assert lines[1..][i - 1] == lines[i];
      assert KeyedAt(lines[1..], i - 1, check, identifier);
    }
    if SomeLineKeyed(lines[1..], check, identifier) {
      var i :| 0 <= i < |lines[1..]| && KeyedAt(lines[1..], i, check, identifier);
      assert lines[1..][i] == lines[i + 1];
      assert KeyedAt(lines, i + 1, check, identifier);
    }
  }

  /** Grouping: a (check, identifier) pair is present afterwards exactly
      when it was present before or some line carries it. */
  lemma {:induction false} MapFeaturesKeys(lines: seq<Json>, index: Index)
    requires MapFeatures(lines, index).Ok?
    ensures var r := MapFeatures(lines, index).value;
            forall c, id :: Has(r, c, id) <==> Has(index, c, id) || SomeLineKeyed(lines, c, id)
    decreases |lines|
  {
    if |lines| > 0 {
      var key := RecordKey(lines[0]).value;
      var next := Insert(index, key.0, key.1, lines[0]);
      MapFeaturesKeys(lines[1..], next);
      assert MapFeatures(lines, index) == MapFeatures(lines[1..], next);
      forall c, id
        ensures SomeLineKeyed(lines, c, id) <==> (c, id) == key || SomeLineKeyed(lines[1..], c, id)
      {
        SomeLineKeyedCons(lines, c, id);
      }
    }
  }

  /** A pair that no line carries keeps its old record. */
  lemma {:induction false} MapFeaturesKeepsOthers(lines: seq<Json>, index: Index, c: string, id: string)
    requires MapFeatures(lines, index).Ok?
    requires Has(index, c, id) && !SomeLineKeyed(lines, c, id)
    ensures var r := MapFeatures(lines, index).value;
            Has(r, c, id) && r[c][id] == index[c][id]
    decreases |lines|
  {
    if |lines| > 0 {
      var key := RecordKey(lines[0]).value;
      var next := Insert(index, key.0, key.1, lines[0]);
      SomeLineKeyedCons(lines, c, id);
      MapFeaturesKeepsOthers(lines[1..], next, c, id);
      assert MapFeatures(lines, index) == MapFeatures(lines[1..], next);
    }
  }

  /** Grouping keeps every record under its own key. */
  lemma {:induction false} MapFeaturesWellKeyed(lines: seq<Json>, index: Index)
    requires MapFeatures(lines, index).Ok?
    requires WellKeyed(index)
    ensures WellKeyed(MapFeatures(lines, index).value)
    decreases |lines|
  {
    if |lines| > 0 {
      var key := RecordKey(lines[0]).value;
      var next := Insert(index, key.0, key.1, lines[0]);
      assert WellKeyed(next);
      MapFeaturesWellKeyed(lines[1..], next);
      assert MapFeatures(lines, index) == MapFeatures(lines[1..], next);
    }
  }

  /** Last write wins: a line that no later line shares its key with is
      the record stored under that key. */
  lemma {:induction false} MapFeaturesLastWins(lines: seq<Json>, index: Index, i: int)
    requires MapFeatures(lines, index).Ok?
    requires 0 <= i < |lines| && LastOfItsKey(lines, i)
    ensures var key := RecordKey(lines[i]).value;
            var r := MapFeatures(lines, index).value;
            Has(r, key.0, key.1) && r[key.0][key.1] == lines[i]
    decreases |lines|
  {
    var key := RecordKey(lines[i]).value;
    var head := RecordKey(lines[0]).value;
    var next := Insert(index, head.0, head.1, lines[0]);
    assert MapFeatures(lines, index) == MapFeatures(lines[1..], next);
    if i == 0 {
      forall j | 0 <= j < |lines[1..]|
        ensures !KeyedAt(lines[1..], j, key.0, key.1)
      {
        assert lines[1..][j] == lines[j + 1];
      }
      MapFeaturesKeepsOthers(lines[1..], next, key.0, key.1);
    } else {
      assert lines[1..][i - 1] == lines[i];
      forall j | i - 1 < j < |lines[1..]|
        ensures RecordKey(lines[1..][j]) != RecordKey(lines[1..][i - 1])
      {
        assert lines[1..][j] == lines[j + 1];
      }
      MapFeaturesLastWins(lines[1..], next, i - 1);
    }
  }

  // ----- identical feature ids -----

  /** One feature's ItemId, if its properties carry one. */
  function FeatureItemId(feature: Json): Result<Option<string>> {
    var fields :- AsObject(feature);
    var propertiesMember :- Member(fields, "properties");
    var properties :- AsObject(propertiesMember);
    if "ItemId" in properties then
      var id :- AsString(properties["ItemId"]);
      Ok(Some(id))
    else Ok(None)
  }

  /** Some feature of the array carries ItemId `id`. */
  ghost predicate CitesItem(features: seq<Json>, id: string) {
    exists i :: 0 <= i < |features| && FeatureItemId(features[i]) == Ok(Some(id))
  }

  ghost predicate AllReadable(features: seq<Json>) {
    forall i :: 0 <= i < |features| ==> FeatureItemId(features[i]).Ok?
  }

  /** The gathered id list: features without an ItemId are skipped. */
  function ItemIds(features: seq<Json>): (r: Result<seq<string>>)
    ensures r.Ok? <==> AllReadable(features)
    ensures r.Ok? ==> forall id :: id in r.value <==> CitesItem(features, id)
    decreases |features|
  {
    if |features| == 0 then Ok([])
    else
      var head :- FeatureItemId(features[0]);
      var tail :- ItemIds(features[1..]);
      assert forall i :: 1 <= i < |features| ==> features[i] == features[1..][i - 1];
      assert forall id :: CitesItem(features[1..], id) ==> CitesItem(features, id) by {
        forall id | CitesItem(features[1..], id) ensures CitesItem(features, id) {
          var i :| 0 <= i < |features[1..]| && FeatureItemId(features[1..][i]) == Ok(Some(id));
          assert FeatureItemId(features[i + 1]) == Ok(Some(id));
        }
      }
      assert forall id :: CitesItem(features, id) ==> head == Some(id) || CitesItem(features[1..], id) by {
        forall id | CitesItem(features, id) ensures head == Some(id) || CitesItem(features[1..], id) {
          var i :| 0 <= i < |features| && FeatureItemId(features[i]) == Ok(Some(id));
          if i > 0 {
            assert FeatureItemId(features[1..][i - 1]) == Ok(Some(id));
          }
        }
      }
      Ok((if head.Some? then [head.value] else []) + tail)
  }

  /** Java's `a.containsAll(b)`. */
  predicate ContainsAll(a: seq<string>, b: seq<string>) {
    forall x :: x in b ==> x in a
  }

  /** identicalFeatureIds: equal array sizes and mutually containing ItemId
      lists. */
  function IdenticalFeatureIds(source: seq<Json>, target: seq<Json>): (r: Result<bool>)
    ensures |source| != |target| ==> r == Ok(false)
    ensures |source| == |target| ==> (r.Ok? <==> AllReadable(source) && AllReadable(target))
    ensures r.Ok? && |source| == |target| ==>
              (r.value <==> forall id :: CitesItem(source, id) <==> CitesItem(target, id))
  {
    if |source| != |target| then Ok(false)
    else
      var sourceIds :- ItemIds(source);
      var targetIds :- ItemIds(target);
      Ok(ContainsAll(sourceIds, targetIds) && ContainsAll(targetIds, sourceIds))
  }

  /** Identity is symmetric. */
  lemma IdenticalSymmetric(a: seq<Json>, b: seq<Json>)
    ensures IdenticalFeatureIds(a, b).Ok? <==> IdenticalFeatureIds(b, a).Ok?
    ensures IdenticalFeatureIds(a, b).Ok? ==> IdenticalFeatureIds(a, b) == IdenticalFeatureIds(b, a)
  {
  }

  /** Identity is reflexive whenever the features can be read. */
  lemma IdenticalReflexive(a: seq<Json>)
    requires AllReadable(a)
    ensures IdenticalFeatureIds(a, a) == Ok(true)
  {
  }

  /** Only which features occur matters, not their order or how often they
      repeat (as long as the sizes match): reordering either side never
      changes the verdict. */
  lemma IdenticalIgnoresOrder(a: seq<Json>, a': seq<Json>, b: seq<Json>)
    requires |a| == |a'| && multiset(a) == multiset(a')
    ensures IdenticalFeatureIds(a, b).Ok? <==> IdenticalFeatureIds(a', b).Ok?
    ensures IdenticalFeatureIds(a, b).Ok? ==> IdenticalFeatureIds(a, b) == IdenticalFeatureIds(a', b)
  {
    forall x ensures x in a <==> x in a' {
      assert x in a <==> x in multiset(a);
      assert x in a' <==> x in multiset(a');
    }
    forall id ensures CitesItem(a, id) <==> CitesItem(a', id) {
      if CitesItem(a, id) {
        var i :| 0 <= i < |a| && FeatureItemId(a[i]) == Ok(Some(id));
        assert a[i] in a';
        var j :| 0 <= j < |a'| && a'[j] == a[i];
      }
      if CitesItem(a', id) {
        var i :| 0 <= i < |a'| && FeatureItemId(a'[i]) == Ok(Some(id));
        assert a'[i] in a;
        var j :| 0 <= j < |a| && a[j] == a'[i];
      }
    }
    assert AllReadable(a) <==> AllReadable(a') by {
      if AllReadable(a) {
        forall i | 0 <= i < |a'| ensures FeatureItemId(a'[i]).Ok? {
          assert a'[i] in a;
          var j :| 0 <= j < |a| && a[j] == a'[i];
        }
      }
      if AllReadable(a') {
        forall i | 0 <= i < |a| ensures FeatureItemId(a[i]).Ok? {
          assert a[i] in a';
          var j :| 0 <= j < |a'| && a'[j] == a[i];
        }
      }
    }
  }

  // ----- missing and changed -----

  /** The array under a record's "features" member. */
  function RecordFeatures(record: Json): Result<seq<Json>> {
    var top :- AsObject(record);
    var featuresMember :- Member(top, "features");
    AsArray(featuresMember)
  }

  /** The identity test applied to two records with the same key. */
  function SameItems(sourceRecord: Json, targetRecord: Json): Result<bool> {
    var sourceFeatures :- RecordFeatures(sourceRecord);
    var targetFeatures :- RecordFeatures(targetRecord);
    IdenticalFeatureIds(sourceFeatures, targetFeatures)
  }

  /** Every (check, identifier) pair an index holds. */
  function Pairs(index: Index): (r: set<(string, string)>)
    ensures forall p :: p in r <==> Has(index, p.0, p.1)
  {
    set c, id | c in index && id in index[c] :: (c, id)
  }

  function At(index: Index, p: (string, string)): Json
    requires Has(index, p.0, p.1)
  {
    index[p.0][p.1]
  }

  /** The source records the target lacks. */
  ghost function Missing(source: Index, target: Index): set<Json> {
    set p | p in Pairs(source) && !Has(target, p.0, p.1) :: At(source, p)
  }

  /** The source records whose counterpart cites different items. */
  ghost function Changed(source: Index, target: Index, onlyMissing: bool): set<Json> {
    set p | p in Pairs(source) && Has(target, p.0, p.1) && !onlyMissing
                && SameItems(At(source, p), At(target, p)) == Ok(false)
          :: At(source, p)
  }

  /** The comparison step for a pair does not throw. */
  ghost predicate Comparable(source: Index, target: Index, onlyMissing: bool, p: (string, string))
    requires p in Pairs(source)
  {
    Has(target, p.0, p.1) && !onlyMissing ==> SameItems(At(source, p), At(target, p)).Ok?
  }

  /** getMissingAndChanged: one pass over every source pair. */
  method GetMissingAndChanged(source: Index, target: Index, onlyMissing: bool)
    returns (r: Result<(set<Json>, set<Json>)>)
    ensures r.Ok? <==> forall p :: p in Pairs(source) ==> Comparable(source, target, onlyMissing, p)
    ensures r.Ok? ==> r.value.0 == Missing(source, target)
    ensures r.Ok? ==> r.value.1 == Changed(source, target, onlyMissing)
  {
    var missing: set<Json> := {};
    var changed: set<Json> := {};
    var todo := Pairs(source);
    while todo != {}
      invariant todo <= Pairs(source)
      invariant forall p :: p in Pairs(source) - todo ==> Comparable(source, target, onlyMissing, p)
      invariant missing == set p | p in Pairs(source) - todo && !Has(target, p.0, p.1) :: At(source, p)
      invariant changed == set p | p in Pairs(source) - todo && Has(target, p.0, p.1) && !onlyMissing
                                   && SameItems(At(source, p), At(target, p)) == Ok(false)
                               :: At(source, p)
      decreases todo
    {
      var p :| p in todo;
      ghost var done := Pairs(source) - todo;
      assert Pairs(source) - (todo - {p}) == done + {p};
      if !Has(target, p.0, p.1) {
        missing := missing + {At(source, p)};
      } else if !onlyMissing {
        var same := SameItems(At(source, p), At(target, p));
        if same.Err? {
          return Err(same.failure);
        }
        if !same.value {
          changed := changed + {At(source, p)};
        }
      }
      todo := todo - {p};
    }
    return Ok((missing, changed));
  }

  /** With records under their own keys, no record is both missing and changed. */
  lemma MissingChangedDisjoint(source: Index, target: Index, onlyMissing: bool)
    requires WellKeyed(source)
    ensures Missing(source, target) !! Changed(source, target, onlyMissing)
  {
    forall x | x in Missing(source, target)
      ensures x !in Changed(source, target, onlyMissing)
    {
      var p :| p in Pairs(source) && !Has(target, p.0, p.1) && x == At(source, p);
      assert RecordKey(x) == Ok(p);
    }
  }

  /** A record only the target holds is never reported. */
  lemma TargetOnlyNeverReported(source: Index, target: Index, onlyMissing: bool, p: (string, string))
    requires WellKeyed(source) && WellKeyed(target)
    requires p in Pairs(target) && p !in Pairs(source)
    ensures At(target, p) !in Missing(source, target) + Changed(source, target, onlyMissing)
  {
    var x := At(target, p);
    assert RecordKey(x) == Ok(p);
  }

  // ----- source size -----

  /** The pairs of the checks in `checks`. */
  function PairsOf(index: Index, checks: set<string>): set<(string, string)> {
    set p | p in Pairs(index) && p.0 in checks
  }

  lemma {:induction false} TaggedCard(check: string, ids: set<string>)
    ensures |set id | id in ids :: (check, id)| == |ids|
    decreases |ids|
  {
    if ids != {} {
      var k :| k in ids;
      var rest := ids - {k};
      TaggedCard(check, rest);
      assert (set id | id in ids :: (check, id)) == (set id | id in rest :: (check, id)) + {(check, k)};
    }
  }

  lemma PairsOfAdd(index: Index, checks: set<string>, c: string)
    requires c in index && c !in checks
    ensures |PairsOf(index, checks + {c})| == |PairsOf(index, checks)| + |index[c]|
  {
    var added := set id | id in index[c].Keys :: (c, id);
    assert PairsOf(index, checks + {c}) == PairsOf(index, checks) + added;
    assert PairsOf(index, checks) !! added;
    TaggedCard(c, index[c].Keys);
  }

  /** getSourceSize: the per-check counts summed, which is the number of
      (check, identifier) pairs. */
  method GetSourceSize(source: Index) returns (size: int)
    ensures size == |Pairs(source)|
  {
    size := 0;
    var remaining := source.Keys;
    while remaining != {}
      invariant remaining <= source.Keys
      invariant size == |PairsOf(source, source.Keys - remaining)|
      decreases remaining
    {
      var c :| c in remaining;
      PairsOfAdd(source, source.Keys - remaining, c);
      assert source.Keys - (remaining - {c}) == (source.Keys - remaining) + {c};
      size := size + |source[c]|;
      remaining := remaining - {c};
    }
    assert source.Keys - remaining == source.Keys;
    assert PairsOf(source, source.Keys) == Pairs(source);
  }

  // ----- worked comparisons -----

  /** A feature citing one item. */
  function ItemFeature(itemId: string): Json {
    JObject(map["type" := JString("Feature"), "properties" := JObject(map["ItemId" := JString(itemId)])])
  }

  /** An archived record of `check` with identifier `id` citing the given items. */
  function Record(check: string, id: string, itemIds: seq<string>): Json {
    JObject(map[
      "type" := JString("FeatureCollection"),
      "features" := JArray(ItemFeatures(itemIds)),
      "properties" := JObject(map["id" := JString(id), "generator" := JString(check)])])
  }

  function ItemFeatures(itemIds: seq<string>): seq<Json> {
    seq(|itemIds|, i requires 0 <= i < |itemIds| => ItemFeature(itemIds[i]))
  }

  lemma ItemFeaturesCite(itemIds: seq<string>)
    ensures AllReadable(ItemFeatures(itemIds))
    ensures forall id :: CitesItem(ItemFeatures(itemIds), id) <==> id in itemIds
  {
    var fs := ItemFeatures(itemIds);
    forall i | 0 <= i < |fs| ensures FeatureItemId(fs[i]) == Ok(Some(itemIds[i])) {
      var props := map["ItemId" := JString(itemIds[i])];
      assert fs[i].fields["properties"] == JObject(props);
    }
    forall id | id in itemIds ensures CitesItem(fs, id) {
      var i :| 0 <= i < |itemIds| && itemIds[i] == id;
      assert FeatureItemId(fs[i]) == Ok(Some(id));
    }
  }

  /** The same items in another order are identical, repeated items are
      tolerated, and one item fewer is a change. */
  lemma SameItemsExamples()
    ensures SameItems(Record("C", "1", ["A", "B"]), Record("C", "1", ["B", "A"])) == Ok(true)
    ensures SameItems(Record("C", "1", ["A", "B"]), Record("C", "1", ["A"])) == Ok(false)
    ensures SameItems(Record("C", "1", ["A", "A", "B"]), Record("C", "1", ["A", "B", "B"])) == Ok(true)
  {
    ItemFeaturesCite(["A", "B"]);
    ItemFeaturesCite(["B", "A"]);
    ItemFeaturesCite(["A", "A", "B"]);
    ItemFeaturesCite(["A", "B", "B"]);
    assert RecordFeatures(Record("C", "1", ["A", "B"])) == Ok(ItemFeatures(["A", "B"]));
    assert RecordFeatures(Record("C", "1", ["B", "A"])) == Ok(ItemFeatures(["B", "A"]));
    assert RecordFeatures(Record("C", "1", ["A", "A", "B"])) == Ok(ItemFeatures(["A", "A", "B"]));
    assert RecordFeatures(Record("C", "1", ["A", "B", "B"])) == Ok(ItemFeatures(["A", "B", "B"]));
    assert RecordFeatures(Record("C", "1", ["A"])) == Ok(ItemFeatures(["A"]));
  }

  function ExampleSource(): Index {
    map["HighwayCheck" := map["10" := Record("HighwayCheck", "10", ["A", "B"]),
                              "11" := Record("HighwayCheck", "11", ["C"])]]
  }

  function ExampleTarget(): Index {
    map["HighwayCheck" := map["10" := Record("HighwayCheck", "10", ["B", "A"])]]
  }

  lemma ExamplePairs()
    ensures Pairs(ExampleSource()) == {("HighwayCheck", "10"), ("HighwayCheck", "11")}
  {
    var source := ExampleSource();
    forall p ensures p in Pairs(source) <==> p == ("HighwayCheck", "10") || p == ("HighwayCheck", "11") {
      assert Has(source, p.0, p.1) <==> p == ("HighwayCheck", "10") || p == ("HighwayCheck", "11");
    }
  }

  /** Source holds HighwayCheck flags 10 and 11, the target only 10 with the
      same items: 11 is missing, nothing changed, and the source size is 2. */
  lemma EndToEndExample()
    ensures Missing(ExampleSource(), ExampleTarget()) == {Record("HighwayCheck", "11", ["C"])}
    ensures Changed(ExampleSource(), ExampleTarget(), false) == {}
    ensures |Pairs(ExampleSource())| == 2
  {
    var source, target := ExampleSource(), ExampleTarget();
    var p10, p11 := ("HighwayCheck", "10"), ("HighwayCheck", "11");
    ExamplePairs();
    assert Has(target, p10.0, p10.1) && !Has(target, p11.0, p11.1);
    SameItemsExamples();
    assert SameItems(At(source, p10), At(target, p10)) == Ok(true);
    assert Missing(source, target) == {At(source, p11)};
    assert Changed(source, target, false) == {};
  }
}
