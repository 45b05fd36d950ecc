/**
 * JSON values as the exporter sees them after `json.loads`, with Python's
 * truthiness and the `obj.get(a) or obj.get(b) or ...` alias lookups.
 */
module JsonValue {

  /**
   * A decoded JSON value. Integers and floats are both numbers; objects are
   * keyed by their (unique) member names.
   */
  datatype Json =
    | JNull
    | JBool(b: bool)
    | JNum(num: real)
    | JStr(str: string)
    | JArr(items: seq<Json>)
    | JObj(fields: map<string, Json>)

  /** Python's `bool(v)` on a decoded value: None, False, 0, "", [] and {} are false. */
  predicate Truthy(v: Json) {
    match v
    case JNull => false
    case JBool(b) => b
    case JNum(x) => x != 0.0
    case JStr(s) => s != []
    case JArr(a) => a != []
    case JObj(m) => m != map[]
  }

  /** `obj.get(key)`: the member, or None when it is missing. */
  function Get(fields: map<string, Json>, key: string): (v: Json)
    ensures key !in fields ==> v == JNull
    ensures key in fields ==> v == fields[key]
  {
    if key in fields then fields[key] else JNull
  }

  /**
   * Python's `a or b or ... or z`: the first truthy operand, or the last
   * operand when none is truthy.
   */
  function FirstTruthy(vals: seq<Json>): (r: Json)
    requires vals != []
    ensures r in vals
    ensures Truthy(r) <==> exists i :: 0 <= i < |vals| && Truthy(vals[i])
    ensures Truthy(r) ==> exists i :: 0 <= i < |vals| && vals[i] == r
                                     && forall j :: 0 <= j < i ==> !Truthy(vals[j])
    ensures !Truthy(r) ==> r == vals[|vals| - 1]
  {
    if |vals| == 1 || Truthy(vals[0]) then vals[0]
    else
      var r := FirstTruthy(vals[1..]);
      assert forall i :: 1 <= i < |vals| ==> vals[i] == vals[1..][i - 1];
      r
  }

  /** The alias chain `obj.get(k1) or obj.get(k2) or ...` over `keys`, in order. */
  function Lookup(fields: map<string, Json>, keys: seq<string>): (r: Json)
    requires keys != []
    ensures Truthy(r) ==> exists i :: 0 <= i < |keys| && Get(fields, keys[i]) == r
                                     && forall j :: 0 <= j < i ==> !Truthy(Get(fields, keys[j]))
    ensures !Truthy(r) ==> (forall i :: 0 <= i < |keys| ==> !Truthy(Get(fields, keys[i])))
                           && r == Get(fields, keys[|keys| - 1])
  {
    var vals := seq(|keys|, i requires 0 <= i < |keys| => Get(fields, keys[i]));
    assert forall i :: 0 <= i < |keys| ==> vals[i] == Get(fields, keys[i]);
    var r := FirstTruthy(vals);
    assert !Truthy(r) ==> forall i :: 0 <= i < |keys| ==> !Truthy(vals[i]);
    r
  }
}
