/** The user filter every ride and course handler applies to its scan. */
module UserFilter {
  import opened Wrappers
  import opened Dynamo
  import Schema

  /**
   * `user_id if user_id is not None else default_user_id`: the id from the
   * request, or the configured default when there is none. A given id is
   * used as it is, the empty string included.
   */
  function PelotonId(requested: Option<string>, defaultUserId: string): (id: string)
    ensures requested.Some? ==> id == requested.value
    ensures requested.None? ==> id == defaultUserId
  {
    match requested
    case Some(u) => u
    case None => defaultUserId
  }

  /** Every scanned item has a `user_id`; `item.get('user_id').get('S')` raises otherwise. */
  predicate HasUserIds(items: seq<Record>): (b: bool)
    ensures b <==> forall i :: 0 <= i < |items| ==> Schema.UserId in items[i]
  {
    forall r :: r in items ==> Schema.UserId in r
  }

  /** `item.get('user_id').get('S') == id` */
  predicate Owns(r: Record, id: string)
  {
    Schema.UserId in r && r[Schema.UserId] == S(id)
  }

  /** The filter test in the source's own terms: `user_id` is present and its `.get('S')` is `id`. */
  lemma OwnsExactly(r: Record, id: string)
    ensures Owns(r, id) <==> Schema.UserId in r && GetS(r[Schema.UserId]) == Some(id)
  {
  }

  /**
   * `[a for a in items if a.get('user_id').get('S') == id]`: every item of
   * the user, as often as it occurs in the scan, and nothing else.
   */
  function OwnedBy(items: seq<Record>, id: string): (rs: seq<Record>)
    ensures |rs| <= |items|
  {
    if items == [] then []
    else (if Owns(items[0], id) then [items[0]] else []) + OwnedBy(items[1..], id)
  }

  /** The filter's result holds each item of the user as often as the scan does, and no other item. */
  lemma {:induction false} OwnedByExactly(items: seq<Record>, id: string)
    ensures forall r :: multiset(OwnedBy(items, id))[r] == if Owns(r, id) then multiset(items)[r] else 0
    ensures forall r :: r in OwnedBy(items, id) <==> r in items && Owns(r, id)
  {
    if items != [] {
      OwnedByExactly(items[1..], id);
      assert items == [items[0]] + items[1..];
    }
  }

  /** The filter keeps scan order: filtering a concatenation concatenates the filtered parts. */
  lemma {:induction false} OwnedByAppend(a: seq<Record>, b: seq<Record>, id: string)
    ensures OwnedBy(a + b, id) == OwnedBy(a, id) + OwnedBy(b, id)
  {
    if a == [] {
      assert a + b == b;
    } else {
      var h := if Owns(a[0], id) then [a[0]] else [];
      var oa, ob := OwnedBy(a[1..], id), OwnedBy(b, id);
      assert (a + b)[0] == a[0] && (a + b)[1..] == a[1..] + b;
      assert OwnedBy(a + b, id) == h + OwnedBy(a[1..] + b, id);
      OwnedByAppend(a[1..], b, id);
      assert h + (oa + ob) == (h + oa) + ob;
    }
  }
}
