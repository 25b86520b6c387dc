/**
 * A JSON value as JavaScript holds it after `JSON.parse`. Parsing and printing
 * are not modelled here: the operations that need them take them as parameters.
 */
module Json {
  import opened Wrappers

  /** Numbers are kept integral; floating point is not modelled. */
  datatype JsonValue =
    | JNull
    | JBool(b: bool)
    | JNumber(n: int)
    | JString(s: string)
    | JArray(elems: seq<JsonValue>)
    | JObject(members: seq<(string, JsonValue)>)

  /** The answers `typeof` gives for a JSON value. */
  datatype TypeTag = TObject | TString | TNumber | TBoolean

  /** `typeof v`: arrays, objects and also `null` are `'object'`. */
  function TypeOf(v: JsonValue): (t: TypeTag)
    ensures t == TObject <==> v.JNull? || v.JArray? || v.JObject?
    ensures t == TString <==> v.JString?
  {
    match v
    case JNull => TObject
    case JBool(_) => TBoolean
    case JNumber(_) => TNumber
    case JString(_) => TString
    case JArray(_) => TObject
    case JObject(_) => TObject
  }

  /**
   * `obj[key]` on a parsed object: `JSON.parse` keeps the last of duplicate keys,
   * so the last member with that key is the one found.
   */
  function Member(members: seq<(string, JsonValue)>, key: string): (r: Option<JsonValue>)
    ensures r.Some? ==> exists i :: 0 <= i < |members| && members[i] == (key, r.value)
                                    && forall j :: i < j < |members| ==> members[j].0 != key
    ensures r.None? ==> forall j :: 0 <= j < |members| ==> members[j].0 != key
    decreases |members|
  {
    if members == [] then None
    else
      var last := members[|members| - 1];
      if last.0 == key then Some(last.1)
      else
        var r := Member(members[..|members| - 1], key);
        assert forall j :: 0 <= j < |members| - 1 ==> members[..|members| - 1][j] == members[j];
        r
  }

  /** A member appended at the end is found under its key and hides nothing else. */
  lemma MemberAppend(members: seq<(string, JsonValue)>, key: string, v: JsonValue)
    ensures forall k :: Member(members + [(key, v)], k) == if k == key then Some(v) else Member(members, k)
  {
    assert (members + [(key, v)])[..|members|] == members;
  }
}
