/** get_course_data over the `peloton_course_data` scan. */
module Courses {
  import opened Wrappers
  import opened Dynamo
  import opened PyStrings
  import opened RecordSort
  import opened UserFilter
  import Schema

  /** One entry of the listing: the course's fields and its formatted date. */
  datatype Course = Course(
    name: Option<string>,
    difficulty: Option<string>,
    length: Option<string>,
    instructor: Option<string>,
    date: string)

  /**
   * Reading one course does not raise: `created_at` is a string holding an
   * integer (it is both the key and `int(...)`'s argument), and `name`,
   * `difficulty` and `length` are present. `instructor` may be absent.
   */
  predicate CourseReadable(r: Record): (b: bool)
    ensures b <==> (Schema.CreatedAt in r && r[Schema.CreatedAt].S? && IsIntText(r[Schema.CreatedAt].s)
                    && Schema.Name in r && Schema.Difficulty in r && Schema.Length in r)
  {
    && Schema.CreatedAt in r && r[Schema.CreatedAt].S? && ParseInt(CreatedAtOf(r)).Some?
    && Schema.Name in r && Schema.Difficulty in r && Schema.Length in r
  }

  /** The dictionary key of a course, which is also its sort key. */
  function CreatedAtOf(r: Record): (k: string)
    ensures Schema.CreatedAt in r && r[Schema.CreatedAt].S? ==> GetS(r[Schema.CreatedAt]) == Some(k)
  {
    SortKey(r, Schema.CreatedAt)
  }

  /**
   * The entry built for one course; `course.get('instructor', {}).get('S')`
   * is None when the instructor is absent or not a string.
   */
  function CourseOf(r: Record, formatDate: int -> string): (c: Course)
    requires CourseReadable(r)
    ensures c.instructor.Some? <==> Schema.Instructor in r && r[Schema.Instructor].S?
  {
    Course(
      GetS(r[Schema.Name]),
      GetS(r[Schema.Difficulty]),
      GetS(r[Schema.Length]),
      if Schema.Instructor in r then GetS(r[Schema.Instructor]) else None,
      formatDate(ParseInt(CreatedAtOf(r)).value))
  }

  /** The dictionary the loop leaves after assigning the courses one by one, in order. */
  function Listing(courses: seq<Record>, formatDate: int -> string): (listing: map<string, Course>)
    requires forall r :: r in courses ==> CourseReadable(r)
    ensures courses == [] ==> listing == map[]
    ensures courses != [] ==> CreatedAtOf(courses[|courses| - 1]) in listing
    ensures courses != [] ==>
              listing[CreatedAtOf(courses[|courses| - 1])] == CourseOf(courses[|courses| - 1], formatDate)
  {
    if courses == [] then map[]
    else
      var last := courses[|courses| - 1];
      Listing(courses[..|courses| - 1], formatDate)[CreatedAtOf(last) := CourseOf(last, formatDate)]
  }

  /** The listing has exactly one key per distinct `created_at`. */
  lemma {:induction false} ListingKeys(courses: seq<Record>, formatDate: int -> string)
    requires forall r :: r in courses ==> CourseReadable(r)
    ensures Listing(courses, formatDate).Keys == set r | r in courses :: CreatedAtOf(r)
  {
    if courses != [] {
      var n := |courses|;
      var pre, last := courses[..n - 1], courses[n - 1];
      assert courses == pre + [last];
      ListingKeys(pre, formatDate);
      var before := Listing(pre, formatDate);
      assert Listing(courses, formatDate) == before[CreatedAtOf(last) := CourseOf(last, formatDate)];
      forall k
        ensures k in Listing(courses, formatDate).Keys <==> k in set r | r in courses :: CreatedAtOf(r)
      {
        if k in before {
          var r :| r in pre && CreatedAtOf(r) == k;
          assert r in courses;
        }
        if k in set r | r in courses :: CreatedAtOf(r) {
          var r :| r in courses && CreatedAtOf(r) == k;
          assert r in pre || r == last;
        }
      }
    }
  }

  /**
   * Later assignments overwrite earlier ones: the entry for a key is built
   * from the last course with that key.
   */
  lemma {:induction false} ListingLaterWins(courses: seq<Record>, formatDate: int -> string, j: nat)
    requires forall r :: r in courses ==> CourseReadable(r)
    requires j < |courses|
    requires forall q :: j < q < |courses| ==> CreatedAtOf(courses[q]) != CreatedAtOf(courses[j])
    ensures CreatedAtOf(courses[j]) in Listing(courses, formatDate)
    ensures Listing(courses, formatDate)[CreatedAtOf(courses[j])] == CourseOf(courses[j], formatDate)
  {
    var n := |courses|;
    if j < n - 1 {
      var pre := courses[..n - 1];
      assert pre[j] == courses[j];
      forall q | j < q < |pre|
        ensures CreatedAtOf(pre[q]) != CreatedAtOf(pre[j])
      {
        assert pre[q] == courses[q];
      }
      ListingLaterWins(pre, formatDate, j);
    }
  }

  /**
   * get_course_data: the user's courses, sorted on the text of `created_at`,
   * assigned one by one into a dictionary keyed by `created_at`.
   */
  method CourseData(items: seq<Record>, requested: Option<string>, defaultUserId: string,
                    formatDate: int -> string) returns (listing: map<string, Course>)
    requires HasUserIds(items)
    requires forall r :: r in OwnedBy(items, PelotonId(requested, defaultUserId)) ==> CourseReadable(r)
    ensures listing == Listing(SortByKey(OwnedBy(items, PelotonId(requested, defaultUserId)), Schema.CreatedAt), formatDate)
    ensures listing.Keys == set r | r in OwnedBy(items, PelotonId(requested, defaultUserId)) :: CreatedAtOf(r)
  {
    var courses := OwnedBy(items, PelotonId(requested, defaultUserId));
    var courseData := SortByKey(courses, Schema.CreatedAt);
    listing := map[];
    var i := 0;
    while i < |courseData|
      invariant 0 <= i <= |courseData|
      invariant listing == Listing(courseData[..i], formatDate)
    {
      var course := courseData[i];
      ListingStep(courseData, i, formatDate);
      listing := listing[CreatedAtOf(course) := CourseOf(course, formatDate)];
      i := i + 1;
    }
    assert courseData[..i] == courseData;
    assert listing.Keys == set r | r in courses :: CreatedAtOf(r) by {
      ListingKeys(courseData, formatDate);
    }
  }

  /** One more assignment of the loop extends the dictionary by the next course. */
  lemma ListingStep(courses: seq<Record>, i: nat, formatDate: int -> string)
    requires forall r :: r in courses ==> CourseReadable(r)
    requires i < |courses|
    ensures Listing(courses[..i + 1], formatDate)
         == Listing(courses[..i], formatDate)[CreatedAtOf(courses[i]) := CourseOf(courses[i], formatDate)]
  {
    assert courses[..i + 1][..i] == courses[..i];
  }

  /**
   * In scan terms: of the user's courses sharing a `created_at`, the entry
   * holds the one scanned last (the sort is stable, the loop overwrites).
   */
  lemma ListingKeepsLastScanned(courses: seq<Record>, formatDate: int -> string, t: nat)
    requires forall r :: r in courses ==> CourseReadable(r)
    requires t < |courses|
    requires forall q :: t < q < |courses| ==> CreatedAtOf(courses[q]) != CreatedAtOf(courses[t])
    ensures CreatedAtOf(courses[t]) in Listing(SortByKey(courses, Schema.CreatedAt), formatDate)
    ensures Listing(SortByKey(courses, Schema.CreatedAt), formatDate)[CreatedAtOf(courses[t])]
            == CourseOf(courses[t], formatDate)
  {
    var p := SortKeepsLastOfKey(courses, Schema.CreatedAt, t);
    ListingLaterWins(SortByKey(courses, Schema.CreatedAt), formatDate, p);
  }

  /** The user's two courses, the scan's only items, stay in scan order when their keys tie. */
  lemma TiedPairKeepsScanOrder(a: Record, b: Record, user: string)
    requires Owns(a, user) && Owns(b, user) && CreatedAtOf(a) == CreatedAtOf(b)
    ensures SortByKey(OwnedBy([a, b], user), Schema.CreatedAt) == [a, b]
  {
    assert [a, b][1..] == [b] && [b][1..] == [];
    assert OwnedBy([a, b], user) == [a, b];
    StrLeRefl(CreatedAtOf(a));
  }

  /** Two of the user's courses sharing a `created_at` give one entry, from the later one. */
  lemma SharedCreatedAtKeepsLater(a: Record, b: Record, user: string, formatDate: int -> string)
    requires Owns(a, user) && Owns(b, user)
    requires CourseReadable(a) && CourseReadable(b) && CreatedAtOf(a) == CreatedAtOf(b)
    ensures SortByKey(OwnedBy([a, b], user), Schema.CreatedAt) == [a, b]
    ensures Listing([a, b], formatDate) == map[CreatedAtOf(a) := CourseOf(b, formatDate)]
  {
    TiedPairKeepsScanOrder(a, b, user);
    var k := CreatedAtOf(a);
    assert Listing([a], formatDate) == map[k := CourseOf(a, formatDate)] by {
      assert [a][..0] == [];
    }
    assert [a, b][..1] == [a];
    assert Listing([a, b], formatDate) == map[k := CourseOf(a, formatDate)][k := CourseOf(b, formatDate)];
  }
}
