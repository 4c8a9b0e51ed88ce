/**
 * The JSON values handed to the serializer. Objects keep their members in
 * insertion order, as an `OrderedDict` (and a Python 3.7+ `dict`) does, so
 * the order in which a serializer writes the keys is part of the value.
 */
module Json {

  datatype Json =
    | JNull
    | JBool(b: bool)
    | JInt(i: int)
    | JNumber(n: real)
    | JString(s: string)
    | JArray(items: seq<Json>)
    | JObject(members: seq<(string, Json)>)

  /** The keys of an object, in the order they are written. */
  function MemberNames(members: seq<(string, Json)>): (names: seq<string>)
    ensures |names| == |members|
    ensures forall i :: 0 <= i < |members| ==> names[i] == members[i].0
  {
    if members == [] then [] else [members[0].0] + MemberNames(members[1..])
  }
}
