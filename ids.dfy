/** getId (port.go): which attribute becomes the GeoJSON feature id. */
module Ids {
  import opened Wrappers

  /** A decoded JSON value: the dynamic type of an attribute value. */
  datatype Json =
    | Null
    | Bool(b: bool)
    | Number(n: real)
    | Str(s: string)
    | Array(items: seq<Json>)
    | Object(fields: map<string, Json>)

  /** The keys tried, in order, when the requested id attribute is absent. */
  const FallbackKeys: seq<string> := ["OBJECTID", "FID"]

  const NoIdError: string := "no valid id attribute found"

  /** The value under the first key of keys that attributes holds. */
  function FirstPresent(attributes: map<string, Json>, keys: seq<string>): (r: Option<Json>)
    ensures r.None? <==> forall i :: 0 <= i < |keys| ==> keys[i] !in attributes
    ensures forall i :: 0 <= i < |keys| && keys[i] in attributes && (forall j :: 0 <= j < i ==> keys[j] !in attributes) ==>
      r == Some(attributes[keys[i]])
  {
    if keys == [] then None
    else if keys[0] in attributes then Some(attributes[keys[0]])
    else FirstPresent(attributes, keys[1..])
  }

  /** getId: the requested attribute if present, else OBJECTID, else FID,
      else an error. */
  function GetId(attributes: map<string, Json>, idAttribute: string): (r: Result<Json, string>)
    ensures r.Success? <==> idAttribute in attributes || "OBJECTID" in attributes || "FID" in attributes
    ensures idAttribute in attributes ==> r == Success(attributes[idAttribute])
    ensures idAttribute !in attributes && "OBJECTID" in attributes ==> r == Success(attributes["OBJECTID"])
    ensures idAttribute !in attributes && "OBJECTID" !in attributes && "FID" in attributes ==> r == Success(attributes["FID"])
    ensures r.Failure? ==> r.error == NoIdError
  {
    if idAttribute in attributes then Success(attributes[idAttribute])
    else
      assert FallbackKeys[0] == "OBJECTID" && FallbackKeys[1] == "FID";
      match FirstPresent(attributes, FallbackKeys)
      case Some(v) => Success(v)
      case None => Failure(NoIdError)
  }
}
