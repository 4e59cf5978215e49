# Ride-data aggregation of the Peloton dashboard backend

This project models the part of the Flask backend (`main.py`) that turns raw
DynamoDB scan results into what the dashboard shows. It covers six handlers:

- `get_labels`: the ride dates, sorted.
- `get_heart_rate`: one heart rate per ride.
- `get_charts`: five per-ride metric series.
- `get_user_rollup`: total miles, ride count and latest achievement count.
- `get_course_data`: a course listing keyed by `created_at`.
- `get_music_by_time`: the playlist recorded at one timestamp.

A scanned item is a `Dynamo.Record`, a map from attribute names to typed DynamoDB
values (`S`, `N`, `BOOL`, `NULL`, `M`, `L`). The scan is an input sequence. Each
handler is modelled on its own.

All the handlers share a few steps, each modelled once:

- **User filter** (`UserFilter`): selecting the records of a user.
- **Stable sort** (`RecordSort`): the stable `sorted(..., key=...)` on a string
  attribute, compared as Python compares `str` (`PyStrings.StrLe`).
- **In-place sort** (`ListSort`): the in-place `list.sort()` of the date labels,
  an insertion sort on an `array<string>`.

The course listing is a method whose loop fills a map, with the dictionary
after each step as its invariant.

Python raises an exception instead of returning in several places:

- `None.get` and a missing key raise.
- Comparing `None` sort keys raises.
- `int()` of a non-number raises.
- Indexing `[-1]` or `[0]` of an empty list raises.

Each of these is a precondition that says exactly when the handler returns,
apart from the cases listed under "## Left out".
Where the code handles a case itself, the model handles it the same way:

- a heart rate that is not a number is `0`;
- a missing `instructor` is `None`;
- a song or metric that is not of the expected type is `None`.

## Behaviour as written

These points follow the code, even where numeric order or an explicit "no data"
answer might be expected:

- **Text order, not numeric.** Rides are ordered by the text of `ride_Id`, and
  courses by the text of `created_at`. For ids of equal width and all digits this
  is numeric order (`PyStrings.LexOrderIsNumeric`). Otherwise "10" sorts before
  "9" (`PyStrings.LexOrderNotNumeric`).
- **The heart-rate example.** Take rides "1000", "9999999999" and "500" with heart
  rates 120, a NULL (non-number) heart rate and 80. The result is `[120, 80, 0]`, not `[80, 120, 0]`
  (`Rides.HeartRatesFollowTextOrder`).
- **Default user id.** The handlers fall back to the default id only when none
  is given (`None`). An empty requested id stays an empty id.
- **Missing `user_id`.** An item without `user_id` makes the filter raise. It is
  not skipped.
- **Miles.** `get_charts` takes miles from `Avg Output.miles_ridden`, and
  `get_user_rollup` from `Avg Cadence.miles_ridden`.
- **No default id in the rollup.** `get_user_rollup` uses the id from the route
  as it is.
- **Empty results raise.** `get_user_rollup` with no rides and
  `get_music_by_time` with no match raise. They do not report "no data".

## Model

| member | source | states |
|---|---|---|
| Dynamo.GetS | main.py:93 | `value.get('S')` is present exactly when the value is a string, and then it is that string's text |
| Dynamo.GetN | main.py:120 | `value.get('N')` is present exactly when the value is a number, and then it is that number's text |
| Dynamo.GetM | main.py:144-148 | `value.get('M')` is present exactly when the value is a map, and then it is that map's entries |
| Dynamo.HasNestedExactly | main.py:144-148 | `item.get(group).get('M').get(field)` returns a value exactly when the group is present, its `.get('M')` is present, and that map holds the field |
| Dynamo.Nested | main.py:144-148 | the value that chain returns is the field's entry in the group's map |
| UserFilter.PelotonId | main.py:91 | the requested id when one is given, the default id only when it is None |
| UserFilter.HasUserIds | main.py:93 | the filter does not raise exactly when the item at every position has a `user_id` |
| UserFilter.OwnsExactly | main.py:93 | the filter test holds exactly when `user_id` is present and its `.get('S')` is the requested id |
| UserFilter.OwnedBy | main.py:93 | the filter never returns more records than were scanned |
| UserFilter.OwnedByExactly | main.py:93 | a record survives the filter exactly when its `user_id` is the string `id`, as many times as it was scanned; no other record survives |
| UserFilter.OwnedByAppend | main.py:117 | the filter keeps scan order: filtering a concatenation concatenates the filtered parts |
| PyStrings.StrLeExactly | main.py:118 | `a <= b` on `str` holds exactly when `a` is a prefix of `b` or, at the first position where they differ, `a` has the smaller code point |
| PyStrings.StrLeRefl | main.py:118 | string order is reflexive |
| PyStrings.StrLeTotal | main.py:118 | any two strings are comparable |
| PyStrings.StrLeTrans | main.py:118 | string order is transitive |
| PyStrings.StrLeAntisym | main.py:118 | strings ordered both ways are equal |
| PyStrings.ParseInt | main.py:121 | `int()` succeeds exactly on an optional sign followed by ASCII digits; the value is the decimal value of the digits, negated after a '-' |
| PyStrings.SignedText | main.py:121 | "-12" reads as -12, "+12" as 12, and a lone "-" is an error |
| PyStrings.LexOrderIsNumeric | main.py:118 | for digit strings of one width, text order is exactly numeric order |
| PyStrings.LexOrderNotNumeric | main.py:118 | "10" sorts before "9" although 10 > 9 |
| RecordSort.SortKey | main.py:118 | the key `i[field].get('S')` (also main.py:143, 180 and 209): a string attribute's text; other values get a stand-in that, by `Sortable`, is never compared |
| RecordSort.Sortable | main.py:118 | `sorted` does not raise: the empty list always sorts, and once two keys are compared every item holds the attribute as a string whose text is its key |
| RecordSort.InsertSplit | main.py:118 | one insertion step puts the item at a single position, the rest in order around it, after only items with smaller keys |
| RecordSort.SortByKey | main.py:118 | `sorted` returns a permutation of its input: same multiset, same length, same members |
| RecordSort.SortByKeySorted | main.py:118 | the result is non-decreasing in the text of the key |
| RecordSort.SortByKeyStable | main.py:118 | for each key, the records with that key keep their input order |
| RecordSort.SortByKeyIsTheStableSort | main.py:118 | any permutation that is key-ordered and stable is exactly `sorted`'s result |
| RecordSort.LastOfSortIsLatestGreatest | main.py:180-183 | the last record of the sort is the last-scanned one among those with the greatest key |
| RecordSort.SortKeepsLastOfKey | main.py:209 | a record followed by no other of its key in the scan is followed by none in the sort either |
| ListSort.Sort | main.py:96 | `list.sort()` in place: afterwards the array is sorted and a permutation of what it held |
| ListSort.SortedUnique | main.py:96 | two sorted permutations of one another are equal, so the sorted labels are determined |
| Rides.RideOrder | main.py:117-118 | the user's rides sorted on `ride_Id`: a permutation of the filtered rides |
| Rides.HeartRateReadable | main.py:120-121 | reading the heart rate does not raise exactly when the path exists and a number there is an optional sign followed by digits |
| Rides.HeartRateOf | main.py:120-121 | a ride's heart rate is 0 when no number is recorded, and otherwise the value `int()` reads from the number's text |
| Rides.HeartRates | main.py:117-121 | one heart rate per ride of the user, entry i from the i-th ride in ride order, 0 where no number is recorded |
| Rides.ThreeRidesInTextOrder | main.py:117-118 | rides "1000", "9999999999", "500" of one user come out as "1000", "500", "9999999999" |
| Rides.HeartRatesFollowTextOrder | main.py:117-121 | with heart rates 120, a NULL (non-number) heart rate, and 80 on those rides, the series is [120, 80, 0] |
| Rides.ChartReadableExactly | main.py:144-148 | the five `.get` chains return a value exactly when `Avg Output` is a map holding `value` and `miles_ridden`, and the other three groups are maps holding `value` |
| Rides.Series | main.py:144-148 | one entry per ride, in ride order: entry i is the number text at the path of ride i, None exactly when that value is not a number |
| Rides.ChartSeries | main.py:144-150 | five series in the order output, cadence, resistance, speed, miles; entry i of every series comes from ride i |
| Rides.Charts | main.py:139-151 | exactly five series, each as long as the user's ride list, entry i of each from the i-th ride in ride order |
| Rides.RideTimeReadableExactly | main.py:93-94 | `int()` of the ride id does not raise exactly when the id is a string of an optional sign and digits |
| Rides.RideEpoch | main.py:94 | the epoch is the value `int()` reads from the id text, the decimal value for a plain digit string |
| Rides.RideDates | main.py:94 | one formatted date per ride, in the rides' order |
| Rides.GetLabels | main.py:91-97 | the labels are sorted and are the dates of the user's rides, one per ride, duplicates kept |
| Rides.RideDatesAppend | main.py:94 | dates of a concatenation are the concatenated dates |
| Rides.DatesOfInsert | main.py:93-94 | inserting a ride into the sort adds exactly its date to the dates |
| Rides.DatesOfSort | main.py:93-94 | sorting the rides first changes only the order of their dates |
| Rides.LabelsFollowRideOrder | main.py:93-96 | with equal-width digit ids and a monotone date format, the labels are the dates of the rides in ride order, so labels, heart rates and charts line up |
| Rides.MilesReadableExactly | main.py:182 | `float()` gets a number's text exactly when `Avg Cadence` is a map whose `miles_ridden` is a number |
| Rides.MilesOf | main.py:182 | one ride's miles are `float` of the number text at `Avg Cadence.miles_ridden` |
| Rides.SumMiles | main.py:182 | the total over no rides is 0 |
| Rides.SumMilesNonNegative | main.py:182 | with no negative mileage the total is non-negative and at least the miles of each ride |
| Rides.SumMilesOfInsert | main.py:180-182 | inserting a ride into the sort adds exactly its miles to the total |
| Rides.SumMilesOfSort | main.py:180-182 | the miles total does not depend on the sort |
| Rides.UserRollup | main.py:179-190 | ride count = number of the user's rides; miles = sum of `Avg Cadence.miles_ridden`; achievements = those of the last-scanned ride with the greatest `ride_Id` |
| Rides.SnapshotIsLatestOfGreatest | main.py:180-183 | `averages[-1]` reads the achievements of the last-scanned ride with the greatest id |
| Courses.CourseReadable | main.py:209-218 | building an entry does not raise exactly when `created_at` is a string of an optional sign and digits and `name`, `difficulty` and `length` are present |
| Courses.CourseOf | main.py:212-218 | the entry's instructor is present exactly when the course has a string `instructor` |
| Courses.CreatedAtOf | main.py:212 | the dictionary key of a course with a string `created_at` is exactly `course.get('created_at').get('S')` |
| Courses.Listing | main.py:211-219 | no course gives an empty dictionary; after the assignments the last course's `created_at` maps to the entry built from it |
| Courses.ListingStep | main.py:211-219 | one more loop step adds the next course's entry over the dictionary so far |
| Courses.ListingKeys | main.py:211-212 | the dictionary has exactly one key per distinct `created_at` of the courses |
| Courses.ListingLaterWins | main.py:211-219 | the entry for a key is built from the last course with that key |
| Courses.CourseData | main.py:203-221 | the loop leaves the dictionary built from the user's courses sorted on `created_at`; its keys are the courses' `created_at` strings |
| Courses.ListingKeepsLastScanned | main.py:207-219 | of the user's courses sharing a `created_at`, the entry holds the one scanned last |
| Courses.SharedCreatedAtKeepsLater | main.py:209-219 | two courses with the same `created_at` give a single entry, built from the later one |
| Music.SetAt | main.py:231 | a set matches exactly when its `created_at` is a string value equal to the ride time |
| Music.HasCreatedAt | main.py:231 | the comprehension does not raise exactly when the set at every position has a `created_at` |
| Music.SetsAt | main.py:231 | a record is among the matches exactly when it is a scanned set whose `created_at` text equals the ride time |
| Music.SetsAtAppend | main.py:231 | the comprehension keeps scan order: the matches of a concatenation are the concatenated matches |
| Music.SetsAtNonEmpty | main.py:231-233 | the match list is non-empty exactly when some scanned set matches |
| Music.SetsAtFirst | main.py:231-233 | when some set matches, the head of the match list is the first matching set of the scan |
| Music.FirstMatch | main.py:231-233 | the first position of the scan whose set matches |
| Music.SetsAtHead | main.py:231-233 | the match list is non-empty exactly when some set matches, and then its head is the first match |
| Music.HasSetList | main.py:233 | iterating the songs does not raise exactly when the set has a `set_list` holding a list |
| Music.Songs | main.py:233 | one title per song, in order, None where a song is not a string |
| Music.Playlist | main.py:231-234 | the titles, in order, of the `set_list` of the first scanned set recorded at exactly the ride time |
| Music.PlaylistOfOneSet | main.py:231-234 | a set at "1700000000" with "Song A", "Song B" yields both titles in order |
| Music.NoSetAtOtherTime | main.py:231-233 | any other time matches nothing, so the lookup raises |

## Left out

- Flask plumbing is left out: routing, `login_required`, sessions, redirects, CORS and `jsonify` (main.py:14-81, main.py:237-308). They are framework I/O. The handlers' return values are the values passed to `jsonify`.
- Login and data ingestion are left out: `peloton_login`, `login`, `pull_user_data`, `PelotonConnection`. They are network calls to an external service.
- The `User` class and `load_user` are left out; they only wrap flask_login.
- `client.scan` is an input sequence, and the default user id from the properties file is a parameter. boto3 and the properties file are not modelled.
- Date formatting (`datetime.fromtimestamp(..., tz=eastern).strftime('%Y-%m-%d')`) is the parameter `formatDate`. Time zones and DST rules are not modelled. `formatDate` accepts every integer, so the error `datetime.fromtimestamp` raises for an epoch outside its range (main.py:94, main.py:217) is not modelled.
- `float` is the parameter `toFloat` from the number's text to a real. IEEE rounding is not modelled, and neither is a `float()` that raises on malformed text.
- Rides.UserRollup: miles are summed as exact reals, so the order of summation does not matter. Python sums floats in ride order, where rounding could make the order matter.
- PyStrings.ParseInt: accepts an optional sign followed by ASCII digits only. Python's `int()` also accepts surrounding whitespace, underscores between digits and non-ASCII digits; these are errors in the model.
- String comparison is by character code, as Python's `str` compares; no locale or normalisation.
- Rides.LabelsFollowRideOrder: the alignment with ride order holds only under its stated assumptions (ids all digits, of one width, and a monotone date format). The code itself promises no alignment.
- Dictionary insertion order, and the key order `jsonify` writes, are not modelled; the listing is a map.
- The `music is not None` guard is always true and is not modelled. `music_set` unbound, when the guard fails, cannot happen.
