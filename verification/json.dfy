/** An abstract Gson element tree. Text is out of scope: a line of a log
    file is represented by the tree Gson parses it into. Numbers keep their
    literal text, so no floating point is involved; equality compares that
    text, whereas Gson's `JsonPrimitive.equals` compares numbers by value
    (`1` and `1.0` are equal there and distinct here). Objects are maps,
    which is how Gson compares them (`JsonObject.equals` ignores key order). */
module Json {
  import opened Common

  datatype Json =
    | JNull
    | JBool(b: bool)
    | JNumber(literal: string)
    | JString(s: string)
    | JArray(items: seq<Json>)
    | JObject(fields: map<string, Json>)

  /** The element inside any nesting of one-element arrays. */
  function Unwrapped(j: Json): (u: Json)
    ensures !(u.JArray? && |u.items| == 1)
  {
    if j.JArray? && |j.items| == 1 then Unwrapped(j.items[0]) else j
  }

  /** `JsonElement.getAsString`: primitives render as text, a one-element
      array delegates to its element, and an array of any other size throws
      `IllegalStateException`. `JsonNull` and `JsonObject` keep the base
      class's method, which throws `UnsupportedOperationException`. */
  function AsString(j: Json): (r: Result<string>)
    ensures r.Ok? <==> Unwrapped(j).JBool? || Unwrapped(j).JNumber? || Unwrapped(j).JString?
    ensures Unwrapped(j).JString? ==> r == Ok(Unwrapped(j).s)
    ensures Unwrapped(j).JNumber? ==> r == Ok(Unwrapped(j).literal)
    ensures Unwrapped(j).JNull? || Unwrapped(j).JObject? ==> r == Err(UnsupportedOperation)
    ensures Unwrapped(j).JArray? ==> r == Err(IllegalState)
  {
    match j
    case JNull => Err(UnsupportedOperation)
    case JBool(b) => Ok(if b then "true" else "false")
    case JNumber(t) => Ok(t)
    case JString(s) => Ok(s)
    case JArray(items) => if |items| == 1 then AsString(items[0]) else Err(IllegalState)
    case JObject(_) => Err(UnsupportedOperation)
  }

  /** `JsonElement.getAsJsonObject`. */
  function AsObject(j: Json): Result<map<string, Json>> {
    if j.JObject? then Ok(j.fields) else Err(IllegalState)
  }

  /** `JsonElement.getAsJsonArray`. */
  function AsArray(j: Json): Result<seq<Json>> {
    if j.JArray? then Ok(j.items) else Err(IllegalState)
  }

  /** `JsonObject.get(key)` immediately dereferenced: a missing member
      is null, and the next call on it throws. */
  function Member(fields: map<string, Json>, key: string): Result<Json> {
    if key in fields then Ok(fields[key]) else Err(NullPointer)
  }

  /** `obj.get(key).getAsString()`. */
  function StringMember(fields: map<string, Json>, key: string): Result<string> {
    var v :- Member(fields, key);
    AsString(v)
  }

  /** Every element's `getAsJsonObject`, in order. */
  function AllObjects(items: seq<Json>): (r: Result<seq<map<string, Json>>>)
    ensures r.Ok? <==> forall i :: 0 <= i < |items| ==> items[i].JObject?
    ensures r.Ok? ==> |r.value| == |items|
                      && forall i :: 0 <= i < |items| ==> items[i] == JObject(r.value[i])
  {
    if |items| == 0 then Ok([])
    else
      var head :- AsObject(items[0]);
      var tail :- AllObjects(items[1..]);
      Ok([head] + tail)
  }

  /** Gson's `toJsonTree` of a `Map<String, String>`: each entry reads back
      as its own string, and a key the map lacks reads as a missing member. */
  function StringFields(m: map<string, string>): (r: map<string, Json>)
    ensures r.Keys == m.Keys
    ensures NoNullMembers(JObject(r))
    ensures forall k :: StringMember(r, k) == if k in m then Ok(m[k]) else Err(NullPointer)
  {
    var r := map k | k in m :: JString(m[k]);
    assert forall k :: k in m ==> Unwrapped(r[k]) == r[k];
    r
  }

  /** No object member anywhere in the tree is null (array elements may be). */
  predicate NoNullMembers(j: Json) {
    match j
    case JObject(fields) => forall k :: k in fields ==> !fields[k].JNull? && NoNullMembers(fields[k])
    case JArray(items) => forall i :: 0 <= i < |items| ==> NoNullMembers(items[i])
    case _ => true
  }

  /** Gson's tree writer without `serializeNulls`: an object member whose
      value is null is dropped, at every depth; array elements, null or not,
      are kept. The result has no null member, and a tree without one is
      left exactly as it was. */
  function StripNulls(j: Json): (r: Json)
    ensures NoNullMembers(r)
    ensures NoNullMembers(j) ==> r == j
    ensures r.JNull? <==> j.JNull?
    ensures j.JObject? ==> r.JObject? && r.fields.Keys == set k | k in j.fields && !j.fields[k].JNull?
    ensures j.JArray? ==> r.JArray? && |r.items| == |j.items|
  {
    match j
    case JObject(fields) =>
      var kept := map k | k in fields && !fields[k].JNull? :: StripNulls(fields[k]);
      assert NoNullMembers(j) ==> kept == fields by {
        if NoNullMembers(j) {
          assert kept.Keys == fields.Keys;
          assert forall k :: k in kept ==> kept[k] == fields[k];
        }
      }
      JObject(kept)
    case JArray(items) =>
      var kept := seq(|items|, i requires 0 <= i < |items| => StripNulls(items[i]));
      assert NoNullMembers(j) ==> kept == items by {
        if NoNullMembers(j) {
          assert forall i :: 0 <= i < |items| ==> kept[i] == items[i];
        }
      }
      JArray(kept)
    case _ => j
  }
}
