/**
 * The four handlers over the `peloton_ride_data` scan: get_labels,
 * get_heart_rate, get_charts and get_user_rollup.
 */
module Rides {
  import opened Wrappers
  import opened Dynamo
  import opened PyStrings
  import opened ListSort
  import opened SeqFacts
  import opened RecordSort
  import opened UserFilter
  import Schema

  /** The user's rides as `sorted(..., key=lambda i: i['ride_Id'].get('S'))` orders them. */
  function RideOrder(items: seq<Record>, id: string): (rides: seq<Record>)
    ensures multiset(rides) == multiset(OwnedBy(items, id))
    ensures |rides| == |OwnedBy(items, id)|
    ensures forall r :: r in rides <==> r in OwnedBy(items, id)
  {
    SortByKey(OwnedBy(items, id), Schema.RideId)
  }

  // ---------------------------------------------------------------- get_heart_rate

  /**
   * `f.get('Avg Output').get('M').get('heart_rate').get('N')` and then `int(h)`
   * do not raise: the wrapper path exists, and a number there is an integer.
   */
  predicate HeartRateReadable(r: Record): (b: bool)
    ensures b <==> HasNested(r, Schema.AvgOutput, Schema.HeartRate)
                   && (Nested(r, Schema.AvgOutput, Schema.HeartRate).N? ==>
                         IsIntText(Nested(r, Schema.AvgOutput, Schema.HeartRate).n))
  {
    && HasNested(r, Schema.AvgOutput, Schema.HeartRate)
    && var h := GetN(Nested(r, Schema.AvgOutput, Schema.HeartRate));
       h.Some? ==> ParseInt(h.value).Some?
  }

  /** `int(h) if h is not None else 0`: a heart rate that is not a number counts as 0. */
  function HeartRateOf(r: Record): (h: int)
    requires HeartRateReadable(r)
    ensures GetN(Nested(r, Schema.AvgOutput, Schema.HeartRate)).None? ==> h == 0
    ensures GetN(Nested(r, Schema.AvgOutput, Schema.HeartRate)).Some? ==>
              ParseInt(GetN(Nested(r, Schema.AvgOutput, Schema.HeartRate)).value) == Some(h)
  {
    match GetN(Nested(r, Schema.AvgOutput, Schema.HeartRate))
    case None => 0
    case Some(h) => ParseInt(h).value
  }

  /** get_heart_rate: one heart rate per ride of the user, in ride order. */
  function HeartRates(items: seq<Record>, requested: Option<string>, defaultUserId: string): (hr: seq<int>)
    requires HasUserIds(items)
    requires Sortable(OwnedBy(items, PelotonId(requested, defaultUserId)), Schema.RideId)
    requires forall r :: r in OwnedBy(items, PelotonId(requested, defaultUserId)) ==> HeartRateReadable(r)
    ensures |hr| == |OwnedBy(items, PelotonId(requested, defaultUserId))|
    ensures forall i :: 0 <= i < |hr| ==>
              hr[i] == HeartRateOf(RideOrder(items, PelotonId(requested, defaultUserId))[i])
  {
    var rides := RideOrder(items, PelotonId(requested, defaultUserId));
    seq(|rides|, i requires 0 <= i < |rides| => HeartRateOf(rides[i]))
  }

  function HeartRateRide(user: string, rideId: string, heartRate: Value): Record
  {
    map[Schema.UserId := S(user), Schema.RideId := S(rideId),
        Schema.AvgOutput := M(map[Schema.HeartRate := heartRate])]
  }

  lemma HeartRateRideFields(user: string, rideId: string, heartRate: Value)
    ensures var r := HeartRateRide(user, rideId, heartRate);
            Owns(r, user) && Schema.RideId in r && r[Schema.RideId] == S(rideId)
            && SortKey(r, Schema.RideId) == rideId
            && HasNested(r, Schema.AvgOutput, Schema.HeartRate)
            && Nested(r, Schema.AvgOutput, Schema.HeartRate) == heartRate
  {
  }

  lemma OwnedByThree(a: Record, b: Record, c: Record, user: string)
    requires Owns(a, user) && Owns(b, user) && Owns(c, user)
    ensures OwnedBy([a, b, c], user) == [a, b, c]
  {
    assert [a, b, c][1..] == [b, c] && [b, c][1..] == [c] && [c][1..] == [];
    assert OwnedBy([c], user) == [c];
    assert OwnedBy([b, c], user) == [b, c];
  }

  lemma SortLaterIdFirst(b: Record, c: Record)
    requires SortKey(b, Schema.RideId) == "9999999999" && SortKey(c, Schema.RideId) == "500"
    ensures SortByKey([b, c], Schema.RideId) == [c, b]
  {
    var f := Schema.RideId;
    assert [b, c][1..] == [c] && [c][1..] == [];
    assert SortByKey([c], f) == Insert(c, [], f) == [c];
    assert !StrLe("9999999999", "500");
    assert Insert(b, [c], f) == [c] + Insert(b, [], f);
  }

  /** Three rides of one user, with ids "1000", "9999999999" and "500", in text order. */
  lemma ThreeRidesInTextOrder(a: Record, b: Record, c: Record, user: string)
    requires Owns(a, user) && Owns(b, user) && Owns(c, user)
    requires SortKey(a, Schema.RideId) == "1000" && SortKey(b, Schema.RideId) == "9999999999"
    requires SortKey(c, Schema.RideId) == "500"
    ensures OwnedBy([a, b, c], user) == [a, b, c]
    ensures RideOrder([a, b, c], user) == [a, c, b]
  {
    OwnedByThree(a, b, c, user);
    SortLaterIdFirst(b, c);
    assert [a, b, c][1..] == [b, c];
    assert StrLe("1000", "500");
    assert Insert(a, [c, b], Schema.RideId) == [a, c, b];
  }

  lemma ThreeRidesReadable(a: Record, b: Record, c: Record, user: string)
    requires Owns(a, user) && Owns(b, user) && Owns(c, user)
    requires Schema.RideId in a && a[Schema.RideId].S? && Schema.RideId in b && b[Schema.RideId].S?
    requires Schema.RideId in c && c[Schema.RideId].S?
    requires HeartRateReadable(a) && HeartRateReadable(b) && HeartRateReadable(c)
    ensures HasUserIds([a, b, c])
    ensures Sortable([a, b, c], Schema.RideId)
    ensures forall r :: r in [a, b, c] ==> HeartRateReadable(r)
  {
  }

  /** The heart-rate series of three rides of one user in the text order "1000" < "500" < "9999999999". */
  lemma ThreeRidesHeartRates(a: Record, b: Record, c: Record, user: string, defaultUserId: string)
    requires Owns(a, user) && Owns(b, user) && Owns(c, user)
    requires SortKey(a, Schema.RideId) == "1000" && SortKey(b, Schema.RideId) == "9999999999"
    requires SortKey(c, Schema.RideId) == "500"
    requires Schema.RideId in a && a[Schema.RideId].S? && Schema.RideId in b && b[Schema.RideId].S?
    requires Schema.RideId in c && c[Schema.RideId].S?
    requires HeartRateReadable(a) && HeartRateReadable(b) && HeartRateReadable(c)
    ensures HasUserIds([a, b, c])
    ensures Sortable(OwnedBy([a, b, c], PelotonId(Some(user), defaultUserId)), Schema.RideId)
    ensures forall r :: r in OwnedBy([a, b, c], PelotonId(Some(user), defaultUserId)) ==> HeartRateReadable(r)
    ensures HeartRates([a, b, c], Some(user), defaultUserId) == [HeartRateOf(a), HeartRateOf(c), HeartRateOf(b)]
  {
    ThreeRidesInTextOrder(a, b, c, user);
    ThreeRidesReadable(a, b, c, user);
    var hr := HeartRates([a, b, c], Some(user), defaultUserId);
    var ha, hb, hc := HeartRateOf(a), HeartRateOf(b), HeartRateOf(c);
    assert |hr| == 3 && hr[0] == ha && hr[1] == hc && hr[2] == hb;
    assert hr == [ha, hc, hb];
  }

  /**
   * Rides "1000", "9999999999" and "500" with heart rates 120, NULL (not a number) and 80:
   * the text order of the ids puts "500" between the other two, so the
   * series is [120, 80, 0], not the chronological [80, 120, 0].
   */
  lemma HeartRatesFollowTextOrder()
    ensures var items := [HeartRateRide("U1", "1000", N("120")), HeartRateRide("U1", "9999999999", NULL),
                          HeartRateRide("U1", "500", N("80"))];
            HasUserIds(items)
            && Sortable(OwnedBy(items, PelotonId(Some("U1"), "U0")), Schema.RideId)
            && (forall r :: r in OwnedBy(items, PelotonId(Some("U1"), "U0")) ==> HeartRateReadable(r))
            && HeartRates(items, Some("U1"), "U0") == [120, 80, 0]
  {
    var a, b, c := HeartRateRide("U1", "1000", N("120")), HeartRateRide("U1", "9999999999", NULL),
                   HeartRateRide("U1", "500", N("80"));
    HeartRateRideFields("U1", "1000", N("120"));
    HeartRateRideFields("U1", "9999999999", NULL);
    HeartRateRideFields("U1", "500", N("80"));
    assert DigitsValue("120") == 120 by {
      assert DigitsValue("1") == 1 && DigitsValue("12") == 12;
    }
    assert DigitsValue("80") == 80 by {
      assert DigitsValue("8") == 8;
    }
    assert HeartRateOf(a) == 120 && HeartRateOf(b) == 0 && HeartRateOf(c) == 80;
    ThreeRidesHeartRates(a, b, c, "U1", "U0");
  }

  // ---------------------------------------------------------------- get_charts

  /** Every path get_charts reads exists (`.get` on a missing one raises). */
  predicate ChartReadable(r: Record)
  {
    && HasNested(r, Schema.AvgOutput, Schema.MetricValue)
    && HasNested(r, Schema.AvgCadence, Schema.MetricValue)
    && HasNested(r, Schema.AvgResistance, Schema.MetricValue)
    && HasNested(r, Schema.AvgSpeed, Schema.MetricValue)
    && HasNested(r, Schema.AvgOutput, Schema.MilesRidden)
  }

  /**
   * The five `.get` chains return a value exactly when `Avg Output` is a map
   * holding `value` and `miles_ridden`, and the other three groups are maps
   * holding `value`.
   */
  lemma ChartReadableExactly(r: Record)
    ensures ChartReadable(r) <==>
              (Schema.AvgOutput in r && r[Schema.AvgOutput].M?
               && Schema.MetricValue in r[Schema.AvgOutput].m && Schema.MilesRidden in r[Schema.AvgOutput].m
               && HasNested(r, Schema.AvgCadence, Schema.MetricValue)
               && HasNested(r, Schema.AvgResistance, Schema.MetricValue)
               && HasNested(r, Schema.AvgSpeed, Schema.MetricValue))
  {
  }

  /** `[f.get(group).get('M').get(field).get('N') for f in rides]` */
  function Series(rides: seq<Record>, group: string, field: string): (s: seq<Option<string>>)
    requires forall r :: r in rides ==> HasNested(r, group, field)
    ensures |s| == |rides|
    ensures forall i :: 0 <= i < |rides| ==> s[i] == GetN(Nested(rides[i], group, field))
    ensures forall i :: 0 <= i < |rides| ==> (s[i].Some? <==> Nested(rides[i], group, field).N?)
  {
    seq(|rides|, i requires 0 <= i < |rides| => GetN(Nested(rides[i], group, field)))
  }

  /** Entry i of each of the five series comes from the ride `r`. */
  predicate ChartRow(datasets: seq<seq<Option<string>>>, i: nat, r: Record)
  {
    && |datasets| == 5
    && (forall k :: 0 <= k < 5 ==> i < |datasets[k]|)
    && ChartReadable(r)
    && datasets[0][i] == GetN(Nested(r, Schema.AvgOutput, Schema.MetricValue))
    && datasets[1][i] == GetN(Nested(r, Schema.AvgCadence, Schema.MetricValue))
    && datasets[2][i] == GetN(Nested(r, Schema.AvgResistance, Schema.MetricValue))
    && datasets[3][i] == GetN(Nested(r, Schema.AvgSpeed, Schema.MetricValue))
    && datasets[4][i] == GetN(Nested(r, Schema.AvgOutput, Schema.MilesRidden))
  }

  lemma ChartPaths(rides: seq<Record>)
    requires forall r :: r in rides ==> ChartReadable(r)
    ensures forall r :: r in rides ==> HasNested(r, Schema.AvgOutput, Schema.MetricValue)
    ensures forall r :: r in rides ==> HasNested(r, Schema.AvgCadence, Schema.MetricValue)
    ensures forall r :: r in rides ==> HasNested(r, Schema.AvgResistance, Schema.MetricValue)
    ensures forall r :: r in rides ==> HasNested(r, Schema.AvgSpeed, Schema.MetricValue)
    ensures forall r :: r in rides ==> HasNested(r, Schema.AvgOutput, Schema.MilesRidden)
  {
    forall r | r in rides
      ensures HasNested(r, Schema.AvgOutput, Schema.MetricValue) && HasNested(r, Schema.AvgCadence, Schema.MetricValue)
      ensures HasNested(r, Schema.AvgResistance, Schema.MetricValue) && HasNested(r, Schema.AvgSpeed, Schema.MetricValue)
      ensures HasNested(r, Schema.AvgOutput, Schema.MilesRidden)
    {
      assert ChartReadable(r);
    }
  }

  /** The five series over `rides`, in the order the source lists them. */
  function ChartSeries(rides: seq<Record>): (datasets: seq<seq<Option<string>>>)
    requires forall r :: r in rides ==> ChartReadable(r)
    ensures |datasets| == 5
    ensures forall k :: 0 <= k < 5 ==> |datasets[k]| == |rides|
    ensures forall i :: 0 <= i < |rides| ==> ChartRow(datasets, i, rides[i])
  {
    ChartPaths(rides);
    [ Series(rides, Schema.AvgOutput, Schema.MetricValue),
      Series(rides, Schema.AvgCadence, Schema.MetricValue),
      Series(rides, Schema.AvgResistance, Schema.MetricValue),
      Series(rides, Schema.AvgSpeed, Schema.MetricValue),
      Series(rides, Schema.AvgOutput, Schema.MilesRidden) ]
  }

  /**
   * get_charts: five series `[output, cadence, resistance, speed, miles]`,
   * each with one entry per ride of the user, entry i from the i-th ride in
   * ride order; an entry that is not a number is None and keeps its place.
   */
  function Charts(items: seq<Record>, requested: Option<string>, defaultUserId: string)
    : (datasets: seq<seq<Option<string>>>)
    requires HasUserIds(items)
    requires Sortable(OwnedBy(items, PelotonId(requested, defaultUserId)), Schema.RideId)
    requires forall r :: r in OwnedBy(items, PelotonId(requested, defaultUserId)) ==> ChartReadable(r)
    ensures |datasets| == 5
    ensures forall k :: 0 <= k < 5 ==> |datasets[k]| == |OwnedBy(items, PelotonId(requested, defaultUserId))|
    ensures forall i :: 0 <= i < |OwnedBy(items, PelotonId(requested, defaultUserId))| ==>
              ChartRow(datasets, i, RideOrder(items, PelotonId(requested, defaultUserId))[i])
  {
    var rides := RideOrder(items, PelotonId(requested, defaultUserId));
    assert forall r :: r in rides ==> ChartReadable(r);
    ChartSeries(rides)
  }

  // ---------------------------------------------------------------- get_labels

  /** `int(r.get('ride_Id').get('S'))` does not raise. */
  predicate RideTimeReadable(r: Record)
  {
    Schema.RideId in r && r[Schema.RideId].S? && ParseInt(r[Schema.RideId].s).Some?
  }

  /** The ride time is readable exactly when `ride_Id` is a string of the shape `int()` accepts. */
  lemma RideTimeReadableExactly(r: Record)
    ensures RideTimeReadable(r) <==> Schema.RideId in r && r[Schema.RideId].S? && IsIntText(r[Schema.RideId].s)
  {
  }

  /** The ride's start as a Unix epoch. */
  function RideEpoch(r: Record): (t: int)
    requires RideTimeReadable(r)
    ensures ParseInt(r[Schema.RideId].s) == Some(t)
    ensures IsDigits(r[Schema.RideId].s) ==> t == DigitsValue(r[Schema.RideId].s)
  {
    ParseInt(r[Schema.RideId].s).value
  }

  /**
   * `[datetime.fromtimestamp(int(t), tz=eastern).strftime('%Y-%m-%d') ...]`
   * with the date formatting given as `formatDate`: one date per ride, in
   * the order of `rides`.
   */
  function RideDates(rides: seq<Record>, formatDate: int -> string): (dates: seq<string>)
    requires forall r :: r in rides ==> RideTimeReadable(r)
    ensures |dates| == |rides|
    ensures forall i :: 0 <= i < |rides| ==> dates[i] == formatDate(RideEpoch(rides[i]))
  {
    if rides == [] then []
    else [formatDate(RideEpoch(rides[0]))] + RideDates(rides[1..], formatDate)
  }

  /**
   * get_labels: the dates of the user's rides, one per ride (duplicates
   * kept), sorted in place as strings by `ride_times.sort()`.
   */
  method GetLabels(items: seq<Record>, requested: Option<string>, defaultUserId: string,
                   formatDate: int -> string) returns (labels: seq<string>)
    requires HasUserIds(items)
    requires forall r :: r in OwnedBy(items, PelotonId(requested, defaultUserId)) ==> RideTimeReadable(r)
    ensures multiset(labels) == multiset(RideDates(OwnedBy(items, PelotonId(requested, defaultUserId)), formatDate))
    ensures Sorted(labels)
  {
    var rideTimes := RideDates(OwnedBy(items, PelotonId(requested, defaultUserId)), formatDate);
    var a := new string[|rideTimes|](i requires 0 <= i < |rideTimes| => rideTimes[i]);
    assert a[..] == rideTimes;
    Sort(a);
    labels := a[..];
  }

  lemma {:induction false} RideDatesAppend(a: seq<Record>, b: seq<Record>, formatDate: int -> string)
    requires forall r :: r in a ==> RideTimeReadable(r)
    requires forall r :: r in b ==> RideTimeReadable(r)
    ensures RideDates(a + b, formatDate) == RideDates(a, formatDate) + RideDates(b, formatDate)
  {
    var d, da, db := RideDates(a + b, formatDate), RideDates(a, formatDate), RideDates(b, formatDate);
    forall i | 0 <= i < |d|
      ensures d[i] == (da + db)[i]
    {
      if i < |a| {
        assert (a + b)[i] == a[i];
      } else {
        assert (a + b)[i] == b[i - |a|];
      }
    }
    assert d == da + db;
  }

  lemma DatesOfInsert(x: Record, s: seq<Record>, formatDate: int -> string)
    requires RideTimeReadable(x) && forall r :: r in s ==> RideTimeReadable(r)
    ensures forall r :: r in Insert(x, s, Schema.RideId) ==> RideTimeReadable(r)
    ensures multiset(RideDates(Insert(x, s, Schema.RideId), formatDate))
         == multiset(RideDates(s, formatDate)) + multiset{formatDate(RideEpoch(x))}
  {
    assert forall r :: r in Insert(x, s, Schema.RideId) ==> RideTimeReadable(r) by {
      InsertMembers(x, s, Schema.RideId);
    }
    var k := InsertSplit(x, s, Schema.RideId);
    var pre, post := s[..k], s[k..];
    assert s == pre + post;
    assert forall r :: r in pre ==> RideTimeReadable(r) by {
      assert forall r :: r in pre ==> r in s;
    }
    assert forall r :: r in post ==> RideTimeReadable(r) by {
      assert forall r :: r in post ==> r in s;
    }
    DatesOfSplit(pre, x, post, formatDate);
  }

  /** Putting `x` between `pre` and `post` adds its date to theirs. */
  lemma DatesOfSplit(pre: seq<Record>, x: Record, post: seq<Record>, formatDate: int -> string)
    requires RideTimeReadable(x)
    requires forall r :: r in pre ==> RideTimeReadable(r)
    requires forall r :: r in post ==> RideTimeReadable(r)
    ensures multiset(RideDates(pre + [x] + post, formatDate))
         == multiset(RideDates(pre + post, formatDate)) + multiset{formatDate(RideEpoch(x))}
  {
    var dx := formatDate(RideEpoch(x));
    var dpre, dpost := RideDates(pre, formatDate), RideDates(post, formatDate);
    RideDatesAppend(pre, post, formatDate);
    RideDatesAppend(pre, [x], formatDate);
    RideDatesAppend(pre + [x], post, formatDate);
    assert RideDates([x], formatDate) == [dx];
  }

  /** Sorting the rides first changes the order of their dates only. */
  lemma {:induction false} DatesOfSort(rs: seq<Record>, formatDate: int -> string)
    requires forall r :: r in rs ==> RideTimeReadable(r)
    ensures multiset(RideDates(SortByKey(rs, Schema.RideId), formatDate)) == multiset(RideDates(rs, formatDate))
  {
    if rs != [] {
      DatesOfSort(rs[1..], formatDate);
      DatesOfInsert(rs[0], SortByKey(rs[1..], Schema.RideId), formatDate);
      assert RideDates(rs, formatDate) == [formatDate(RideEpoch(rs[0]))] + RideDates(rs[1..], formatDate);
    }
  }

  /**
   * When every `ride_Id` is a digit string of one width (as ten-digit epochs
   * are) and the date format is monotone, the labels get_labels sorts are
   * exactly the dates of the rides in the order get_heart_rate and
   * get_charts use, so the three series line up position by position.
   */
  lemma LabelsFollowRideOrder(items: seq<Record>, id: string, formatDate: int -> string,
                              width: nat, labels: seq<string>)
    requires forall r: Record :: r in OwnedBy(items, id) ==>
               RideTimeReadable(r) && IsDigits(r[Schema.RideId].s) && |r[Schema.RideId].s| == width
    requires forall x: int, y: int :: x <= y ==> StrLe(formatDate(x), formatDate(y))
    requires Sorted(labels)
    requires multiset(labels) == multiset(RideDates(OwnedBy(items, id), formatDate))
    ensures labels == RideDates(RideOrder(items, id), formatDate)
  {
    var rides := OwnedBy(items, id);
    DatesOfRideOrderSorted(rides, formatDate, width);
    DatesOfSort(rides, formatDate);
    SortedUnique(labels, RideDates(RideOrder(items, id), formatDate));
  }

  lemma DatesOfRideOrderSorted(rides: seq<Record>, formatDate: int -> string, width: nat)
    requires forall r: Record :: r in rides ==>
               RideTimeReadable(r) && IsDigits(r[Schema.RideId].s) && |r[Schema.RideId].s| == width
    requires forall x: int, y: int :: x <= y ==> StrLe(formatDate(x), formatDate(y))
    ensures forall r :: r in SortByKey(rides, Schema.RideId) ==> RideTimeReadable(r)
    ensures Sorted(RideDates(SortByKey(rides, Schema.RideId), formatDate))
  {
    var s := SortByKey(rides, Schema.RideId);
    var d := RideDates(s, formatDate);
    SortByKeySorted(rides, Schema.RideId);
    forall i, j | 0 <= i < j < |d|
      ensures StrLe(d[i], d[j])
    {
      var ki, kj := s[i][Schema.RideId].s, s[j][Schema.RideId].s;
      assert SortKey(s[i], Schema.RideId) == ki && SortKey(s[j], Schema.RideId) == kj;
      LexOrderIsNumeric(ki, kj);
      assert RideEpoch(s[i]) <= RideEpoch(s[j]);
    }
  }

  // ---------------------------------------------------------------- get_user_rollup

  datatype Rollup = Rollup(totalMiles: real, totalRides: nat, totalAchievements: Option<string>)

  /**
   * `float(r.get('Avg Cadence').get('M').get('miles_ridden').get('N'))` does
   * not raise: the path exists and holds a number (`float(None)` raises).
   */
  predicate MilesReadable(r: Record)
  {
    HasNested(r, Schema.AvgCadence, Schema.MilesRidden) && Nested(r, Schema.AvgCadence, Schema.MilesRidden).N?
  }

  /** The miles are readable exactly when the path exists and its `.get('N')` is present. */
  lemma MilesReadableExactly(r: Record)
    ensures MilesReadable(r) <==> HasNested(r, Schema.AvgCadence, Schema.MilesRidden)
                                  && GetN(Nested(r, Schema.AvgCadence, Schema.MilesRidden)).Some?
  {
  }

  /** The miles of one ride, read by `toFloat` standing for Python's `float`. */
  function MilesOf(r: Record, toFloat: string -> real): (m: real)
    requires MilesReadable(r)
    ensures m == toFloat(GetN(Nested(r, Schema.AvgCadence, Schema.MilesRidden)).value)
  {
    toFloat(Nested(r, Schema.AvgCadence, Schema.MilesRidden).n)
  }

  /** `sum([...])` of the miles of `rides`. */
  function SumMiles(rides: seq<Record>, toFloat: string -> real): (total: real)
    requires forall r :: r in rides ==> MilesReadable(r)
    ensures rides == [] ==> total == 0.0
  {
    if rides == [] then 0.0 else MilesOf(rides[0], toFloat) + SumMiles(rides[1..], toFloat)
  }

  /** With no negative mileage the total is non-negative and bounds every ride's miles. */
  lemma {:induction false} SumMilesNonNegative(rides: seq<Record>, toFloat: string -> real)
    requires forall r :: r in rides ==> MilesReadable(r) && MilesOf(r, toFloat) >= 0.0
    ensures SumMiles(rides, toFloat) >= 0.0
    ensures forall r :: r in rides ==> MilesOf(r, toFloat) <= SumMiles(rides, toFloat)
  {
    if rides != [] {
      var rest := rides[1..];
      assert forall r :: r in rest ==> r in rides;
      SumMilesNonNegative(rest, toFloat);
      assert forall r :: r in rides ==> r == rides[0] || r in rest;
    }
  }

  lemma {:induction false} SumMilesOfInsert(x: Record, s: seq<Record>, toFloat: string -> real)
    requires MilesReadable(x) && forall r :: r in s ==> MilesReadable(r)
    ensures forall r :: r in Insert(x, s, Schema.RideId) ==> MilesReadable(r)
    ensures SumMiles(Insert(x, s, Schema.RideId), toFloat) == MilesOf(x, toFloat) + SumMiles(s, toFloat)
  {
    var ins := Insert(x, s, Schema.RideId);
    SameMembers(ins, s + [x]);
    if s != [] && !StrLe(SortKey(x, Schema.RideId), SortKey(s[0], Schema.RideId)) {
      SumMilesOfInsert(x, s[1..], toFloat);
      assert ins == [s[0]] + Insert(x, s[1..], Schema.RideId);
      assert ins[1..] == Insert(x, s[1..], Schema.RideId);
    } else {
      assert ins[1..] == s;
    }
  }

  /** The total does not depend on the order the rides are summed in. */
  lemma {:induction false} SumMilesOfSort(rs: seq<Record>, toFloat: string -> real)
    requires forall r :: r in rs ==> MilesReadable(r)
    ensures SumMiles(SortByKey(rs, Schema.RideId), toFloat) == SumMiles(rs, toFloat)
  {
    if rs != [] {
      SumMilesOfSort(rs[1..], toFloat);
      SumMilesOfInsert(rs[0], SortByKey(rs[1..], Schema.RideId), toFloat);
    }
  }

  /**
   * get_user_rollup for `userId` (no default id here): the number of the
   * user's rides, their summed miles, and the achievement count of the last
   * ride in ride order, which is the last-scanned ride among those with the
   * greatest `ride_Id`. `averages[-1]` needs at least one ride.
   */
  function UserRollup(items: seq<Record>, userId: string, toFloat: string -> real): (r: Rollup)
    requires HasUserIds(items)
    requires OwnedBy(items, userId) != []
    requires Sortable(OwnedBy(items, userId), Schema.RideId)
    requires forall x :: x in OwnedBy(items, userId) ==> MilesReadable(x)
    requires Schema.TotalAchievements in RideOrder(items, userId)[|OwnedBy(items, userId)| - 1]
    ensures r.totalRides == |OwnedBy(items, userId)|
    ensures r.totalMiles == SumMiles(OwnedBy(items, userId), toFloat)
    ensures AchievementsOfLatest(OwnedBy(items, userId), r.totalAchievements)
  {
    var rides := OwnedBy(items, userId);
    var sorted := SortByKey(rides, Schema.RideId);
    RollupOfSort(rides, toFloat);
    Rollup(SumMiles(sorted, toFloat), |sorted|, GetN(sorted[|sorted| - 1][Schema.TotalAchievements]))
  }

  /** What the rollup reads from the sorted rides, stated about the rides as scanned. */
  lemma RollupOfSort(rides: seq<Record>, toFloat: string -> real)
    requires rides != []
    requires Sortable(rides, Schema.RideId)
    requires forall x :: x in rides ==> MilesReadable(x)
    requires Schema.TotalAchievements in SortByKey(rides, Schema.RideId)[|rides| - 1]
    ensures |SortByKey(rides, Schema.RideId)| == |rides|
    ensures forall x :: x in SortByKey(rides, Schema.RideId) ==> MilesReadable(x)
    ensures SumMiles(SortByKey(rides, Schema.RideId), toFloat) == SumMiles(rides, toFloat)
    ensures AchievementsOfLatest(rides, GetN(SortByKey(rides, Schema.RideId)[|rides| - 1][Schema.TotalAchievements]))
  {
    SumMilesOfSort(rides, toFloat);
    SnapshotIsLatestOfGreatest(rides);
  }

  /**
   * `achievements` is what `.get('total_achievements').get('N')` reads from the
   * last-scanned ride among those with the greatest `ride_Id`.
   */
  predicate AchievementsOfLatest(rides: seq<Record>, achievements: Option<string>)
  {
    exists t :: 0 <= t < |rides| && LatestOfGreatest(rides, Schema.RideId, t)
                && Schema.TotalAchievements in rides[t]
                && achievements == GetN(rides[t][Schema.TotalAchievements])
  }

  /** The achievements `averages[-1]` reports are those of the latest ride with the greatest `ride_Id`. */
  lemma SnapshotIsLatestOfGreatest(rides: seq<Record>)
    requires rides != []
    requires Schema.TotalAchievements in SortByKey(rides, Schema.RideId)[|rides| - 1]
    ensures AchievementsOfLatest(rides, GetN(SortByKey(rides, Schema.RideId)[|rides| - 1][Schema.TotalAchievements]))
  {
    var t := LastOfSortIsLatestGreatest(rides, Schema.RideId);
  }
}
