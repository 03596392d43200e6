/** The parsed request body as cJSON presents it to the settings handler: the
    parser itself is not modelled, only the tree it returns and the two reads the
    handler makes of it (`cJSON_GetObjectItem` and the `valueint` field). */
module Json {
  import opened Common

  /** A cJSON node. `valueint` is what cJSON leaves in that field: the number
      converted to `int` for a number, whatever the parser stored for the other
      kinds (`JOther`: true, false, null, arrays). Strings keep `valueint` 0. */
  datatype JValue =
    | JString(s: string)
    | JNumber(valueint: i32)
    | JObject(members: seq<Member>)
    | JOther(valueint: i32)

  datatype Member = Member(name: string, value: JValue)

  /** `item->valueint`. */
  function ValueInt(v: JValue): i32
  {
    match v
    case JNumber(n) => n
    case JOther(n) => n
    case _ => 0
  }

  /** The first member whose name equals `name` ignoring ASCII case. */
  function LookupMember(ms: seq<Member>, name: string): (r: Option<JValue>)
    ensures r.None? <==> forall k :: 0 <= k < |ms| ==> !EqualsIgnoreCase(ms[k].name, name)
    ensures r.Some? ==> exists k :: (0 <= k < |ms| && EqualsIgnoreCase(ms[k].name, name) && ms[k].value == r.value
      && forall j :: 0 <= j < k ==> !EqualsIgnoreCase(ms[j].name, name))
    decreases |ms|
  {
    if ms == [] then None
    else if EqualsIgnoreCase(ms[0].name, name) then Some(ms[0].value)
    else
      var r := LookupMember(ms[1..], name);
      assert forall k :: 1 <= k < |ms| ==> ms[k] == ms[1..][k - 1];
      r
  }

  /** `cJSON_GetObjectItem`: case-insensitive, first match; a root that is not an
      object has no items (NULL). */
  function GetObjectItem(root: JValue, name: string): (item: Option<JValue>)
    ensures !root.JObject? ==> item.None?
  {
    match root
    case JObject(ms) => LookupMember(ms, name)
    case _ => None
  }
}
