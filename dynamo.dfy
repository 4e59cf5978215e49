/**
 * The items a DynamoDB scan returns, in the low-level encoding the handlers
 * read: every attribute value is a one-key wrapper naming its type
 * (`{"S": "..."}`, `{"N": "..."}`, `{"M": {...}}`, `{"L": [...]}`, ...).
 * Numbers stay decimal text, as the client hands them over.
 */
module Dynamo {
  import opened Wrappers

  datatype Value =
    | S(s: string)
    | N(n: string)
    | BOOL(b: bool)
    | NULL
    | M(m: map<string, Value>)
    | L(l: seq<Value>)

  /** One scanned item: attribute name to wrapped value. */
  type Record = map<string, Value>

  /** `value.get('S')`: the text of a string value, None for any other type. */
  function GetS(v: Value): (r: Option<string>)
    ensures r.Some? <==> v.S?
    ensures r.Some? ==> v == S(r.value)
  {
    if v.S? then Some(v.s) else None
  }

  /** `value.get('N')`: the decimal text of a number value, None for any other type. */
  function GetN(v: Value): (r: Option<string>)
    ensures r.Some? <==> v.N?
    ensures r.Some? ==> v == N(r.value)
  {
    if v.N? then Some(v.n) else None
  }

  /** `value.get('M')`: the entries of a map value, None for any other type. */
  function GetM(v: Value): (r: Option<map<string, Value>>)
    ensures r.Some? <==> v.M?
    ensures r.Some? ==> v == M(r.value)
  {
    if v.M? then Some(v.m) else None
  }

  /**
   * `item.get(group).get('M').get(field)` returns a value rather than raising:
   * the group attribute is present, is a map, and holds the field.
   */
  predicate HasNested(r: Record, group: string, field: string)
  {
    group in r && r[group].M? && field in r[group].m
  }

  /** The chain returns exactly when the group is present, its `.get('M')` is present and holds the field. */
  lemma HasNestedExactly(r: Record, group: string, field: string)
    ensures HasNested(r, group, field) <==> group in r && GetM(r[group]).Some? && field in GetM(r[group]).value
  {
  }

  /** The value that chain returns: the field's entry in the group's map. */
  function Nested(r: Record, group: string, field: string): (v: Value)
    requires HasNested(r, group, field)
    ensures (field, v) in r[group].m.Items
  {
    r[group].m[field]
  }
}

/** Attribute names of the three tables the handlers scan. */
module Schema {
  // peloton_ride_data
  const UserId := "user_id"
  const RideId := "ride_Id"
  const AvgOutput := "Avg Output"
  const AvgCadence := "Avg Cadence"
  const AvgResistance := "Avg Resistance"
  const AvgSpeed := "Avg Speed"
  const MetricValue := "value"
  const HeartRate := "heart_rate"
  const MilesRidden := "miles_ridden"
  const TotalAchievements := "total_achievements"
  // peloton_course_data
  const CreatedAt := "created_at"
  const Name := "name"
  const Difficulty := "difficulty"
  const Length := "length"
  const Instructor := "instructor"
  // peloton_music_sets (keyed by CreatedAt as well)
  const SetList := "set_list"
}
