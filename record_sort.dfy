/**
 * `sorted(records, key=lambda i: i[field].get('S'))`: a stable sort of scanned
 * items on the text of one string attribute, compared as `str`.
 */
module RecordSort {
  import opened Wrappers
  import opened Dynamo
  import opened PyStrings
  import opened SeqFacts

  /**
   * The sort key of one item. Where the attribute is not a string Python's
   * key is None; that can only be sorted when it is the only key, so the text
   * chosen for it here ("") never decides an order.
   */
  function SortKey(r: Record, field: string): (k: string)
    ensures field in r && r[field].S? ==> r[field] == S(k)
  {
    if field in r && r[field].S? then r[field].s else ""
  }

  /**
   * What `sorted` needs in order not to raise: every item has the attribute
   * (KeyError otherwise), and once two keys must be compared, every key is a
   * string (comparing None raises TypeError).
   */
  predicate Sortable(rs: seq<Record>, field: string): (b: bool)
    ensures rs == [] ==> b
    ensures b && |rs| >= 2 ==> forall i :: 0 <= i < |rs| ==> field in rs[i] && rs[i][field] == S(SortKey(rs[i], field))
  {
    && (forall r: Record :: r in rs ==> field in r)
    && (|rs| >= 2 ==> forall r: Record :: r in rs ==> r[field].S?)
  }

  /** Places `x` before the first element whose key is not smaller than its own. */
  function Insert(x: Record, s: seq<Record>, field: string): (r: seq<Record>)
    ensures multiset(r) == multiset(s) + multiset{x}
  {
    if s == [] || StrLe(SortKey(x, field), SortKey(s[0], field)) then [x] + s
    else
      assert s == [s[0]] + s[1..];
      [s[0]] + Insert(x, s[1..], field)
  }

  /** An item whose key is smaller than `x`'s stays in front of it. */
  lemma InsertPassesOver(x: Record, s: seq<Record>, field: string)
    requires s != [] && !StrLe(SortKey(x, field), SortKey(s[0], field))
    ensures Insert(x, s, field) == [s[0]] + Insert(x, s[1..], field)
  {
  }

  /** Inserting adds `x` and nothing else. */
  lemma InsertMembers(x: Record, s: seq<Record>, field: string)
    ensures forall r :: r in Insert(x, s, field) <==> r == x || r in s
  {
    SameMembers(Insert(x, s, field), [x] + s);
  }

  /**
   * `Insert` puts `x` at one position and leaves the rest of `s` in order
   * around it; every item before it has a key `x`'s key does not precede.
   */
  lemma {:induction false} InsertSplit(x: Record, s: seq<Record>, field: string) returns (k: nat)
    ensures k <= |s| && Insert(x, s, field) == s[..k] + [x] + s[k..]
    ensures forall i :: 0 <= i < k ==> !StrLe(SortKey(x, field), SortKey(s[i], field))
  {
    if s == [] || StrLe(SortKey(x, field), SortKey(s[0], field)) {
      k := 0;
    } else {
      var j := InsertSplit(x, s[1..], field);
      InsertPassesOver(x, s, field);
      SplitShift(x, s, j);
      KeysShift(x, s, field, j);
      k := j + 1;
    }
  }

  /** A split of `s[1..]` at `j`, with `s[0]` in front, is the split of `s` at `j + 1`. */
  lemma SplitShift(x: Record, s: seq<Record>, j: nat)
    requires s != [] && j <= |s| - 1
    ensures [s[0]] + (s[1..][..j] + [x] + s[1..][j..]) == s[..j + 1] + [x] + s[j + 1..]
  {
    var t := s[1..];
    assert s[j + 1..] == t[j..];
    assert s[..j + 1] == [s[0]] + t[..j];
  }

  /** Keys passed over in `s[1..]`, together with `s[0]`'s, are those passed over in `s`. */
  lemma KeysShift(x: Record, s: seq<Record>, field: string, j: nat)
    requires s != [] && j <= |s| - 1 && !StrLe(SortKey(x, field), SortKey(s[0], field))
    requires forall i :: 0 <= i < j ==> !StrLe(SortKey(x, field), SortKey(s[1..][i], field))
    ensures forall i :: 0 <= i < j + 1 ==> !StrLe(SortKey(x, field), SortKey(s[i], field))
  {
    forall i | 1 <= i < j + 1
      ensures !StrLe(SortKey(x, field), SortKey(s[i], field))
    {
      assert s[i] == s[1..][i - 1];
    }
  }

  function SortByKey(rs: seq<Record>, field: string): (r: seq<Record>)
    ensures multiset(r) == multiset(rs)
    ensures |r| == |rs|
    ensures forall x :: x in r <==> x in rs
  {
    if rs == [] then []
    else
      assert rs == [rs[0]] + rs[1..];
      var r := Insert(rs[0], SortByKey(rs[1..], field), field);
      SameMembers(r, rs);
      r
  }

  /** Non-decreasing in the string order of the keys. */
  predicate SortedBy(rs: seq<Record>, field: string)
  {
    forall i, j :: 0 <= i < j < |rs| ==> StrLe(SortKey(rs[i], field), SortKey(rs[j], field))
  }

  /** The items whose key is `k`, in their order in `rs`. */
  function WithKey(rs: seq<Record>, field: string, k: string): seq<Record>
  {
    if rs == [] then []
    else (if SortKey(rs[0], field) == k then [rs[0]] else []) + WithKey(rs[1..], field, k)
  }

  /** An item no greater than every item of a sorted list may go in front of it. */
  lemma ConsSorted(h: Record, t: seq<Record>, field: string)
    requires SortedBy(t, field)
    requires forall j :: 0 <= j < |t| ==> StrLe(SortKey(h, field), SortKey(t[j], field))
    ensures SortedBy([h] + t, field)
  {
    var r := [h] + t;
    forall i, j | 0 <= i < j < |r|
      ensures StrLe(SortKey(r[i], field), SortKey(r[j], field))
    {
      assert r[j] == t[j - 1];
      if i > 0 {
        assert r[i] == t[i - 1];
      }
    }
  }

  /** Every element of `Insert(x, s)` is `x` or an element of `s`. */
  lemma InsertElement(x: Record, s: seq<Record>, field: string, j: nat)
    requires j < |Insert(x, s, field)|
    ensures Insert(x, s, field)[j] == x || exists m :: 0 <= m < |s| && s[m] == Insert(x, s, field)[j]
  {
    var t := Insert(x, s, field);
    assert t[j] in multiset(t);
    if t[j] != x {
      assert t[j] in multiset(s);
    }
  }

  lemma {:induction false} InsertSorted(x: Record, s: seq<Record>, field: string)
    requires SortedBy(s, field)
    ensures SortedBy(Insert(x, s, field), field)
  {
    var kx := SortKey(x, field);
    if s == [] {
    } else if StrLe(kx, SortKey(s[0], field)) {
      forall j | 0 <= j < |s|
        ensures StrLe(kx, SortKey(s[j], field))
      {
        if j > 0 {
          StrLeTrans(kx, SortKey(s[0], field), SortKey(s[j], field));
        }
      }
      ConsSorted(x, s, field);
    } else {
      var s' := s[1..];
      var t := Insert(x, s', field);
      assert SortedBy(s', field);
      InsertSorted(x, s', field);
      StrLeTotal(kx, SortKey(s[0], field));
      forall j | 0 <= j < |t|
        ensures StrLe(SortKey(s[0], field), SortKey(t[j], field))
      {
        InsertElement(x, s', field, j);
        if t[j] != x {
          var m :| 0 <= m < |s'| && s'[m] == t[j];
          assert s[m + 1] == t[j];
        }
      }
      ConsSorted(s[0], t, field);
    }
  }

  /** The result of `sorted` is in key order. */
  lemma {:induction false} SortByKeySorted(rs: seq<Record>, field: string)
    ensures SortedBy(SortByKey(rs, field), field)
  {
    if rs != [] {
      SortByKeySorted(rs[1..], field);
      InsertSorted(rs[0], SortByKey(rs[1..], field), field);
    }
  }

  lemma {:induction false} WithKeyAppend(a: seq<Record>, b: seq<Record>, field: string, k: string)
    ensures WithKey(a + b, field, k) == WithKey(a, field, k) + WithKey(b, field, k)
  {
    if a == [] {
      assert a + b == b;
    } else {
      var h := if SortKey(a[0], field) == k then [a[0]] else [];
      var wa, wb := WithKey(a[1..], field, k), WithKey(b, field, k);
      assert (a + b)[0] == a[0] && (a + b)[1..] == a[1..] + b;
      assert WithKey(a + b, field, k) == h + WithKey(a[1..] + b, field, k);
      WithKeyAppend(a[1..], b, field, k);
      assert WithKey(a, field, k) == h + wa;
      assert h + (wa + wb) == (h + wa) + wb;
    }
  }

  /** An item `Insert` passes over never shares the key of `x`. */
  lemma WithKeyPassOver(x: Record, s: seq<Record>, field: string, k: string)
    requires s != [] && !StrLe(SortKey(x, field), SortKey(s[0], field))
    requires WithKey(Insert(x, s[1..], field), field, k)
          == (if SortKey(x, field) == k then [x] else []) + WithKey(s[1..], field, k)
    ensures WithKey(Insert(x, s, field), field, k)
         == (if SortKey(x, field) == k then [x] else []) + WithKey(s, field, k)
  {
    var wx := if SortKey(x, field) == k then [x] else [];
    var t := s[1..];
    var it := Insert(x, t, field);
    var h := if SortKey(s[0], field) == k then [s[0]] else [];
    var ins := [s[0]] + it;
    InsertPassesOver(x, s, field);
    assert WithKey(ins, field, k) == h + WithKey(it, field, k) by {
      assert ins[0] == s[0] && ins[1..] == it;
    }
    assert h == [] || wx == [] by {
      StrLeRefl(SortKey(x, field));
    }
    PrependEitherEmpty(h, wx, WithKey(t, field, k));
  }

  lemma {:induction false} WithKeyInsert(x: Record, s: seq<Record>, field: string, k: string)
    ensures WithKey(Insert(x, s, field), field, k)
         == (if SortKey(x, field) == k then [x] else []) + WithKey(s, field, k)
  {
    if s == [] || StrLe(SortKey(x, field), SortKey(s[0], field)) {
      var ins := [x] + s;
      assert Insert(x, s, field) == ins;
      assert ins[0] == x && ins[1..] == s;
    } else {
      WithKeyInsert(x, s[1..], field, k);
      WithKeyPassOver(x, s, field, k);
    }
  }

  /** `sorted` is stable: the items sharing any one key keep their scan order. */
  lemma {:induction false} SortByKeyStable(rs: seq<Record>, field: string, k: string)
    ensures WithKey(SortByKey(rs, field), field, k) == WithKey(rs, field, k)
  {
    if rs != [] {
      SortByKeyStable(rs[1..], field, k);
      WithKeyInsert(rs[0], SortByKey(rs[1..], field), field, k);
    }
  }

  /** Two key-ordered permutations of one another start with the same key. */
  lemma HeadKeysAgree(a: seq<Record>, b: seq<Record>, field: string)
    requires multiset(a) == multiset(b) && a != []
    requires SortedBy(a, field) && SortedBy(b, field)
    ensures b != [] && SortKey(a[0], field) == SortKey(b[0], field)
  {
    assert |b| == |multiset(b)| == |a|;
    var ka, kb := SortKey(a[0], field), SortKey(b[0], field);
    assert StrLe(kb, ka) by {
      assert a[0] in multiset(b);
      var i :| 0 <= i < |b| && b[i] == a[0];
      if i > 0 { assert StrLe(kb, SortKey(b[i], field)); } else { StrLeRefl(kb); }
    }
    assert StrLe(ka, kb) by {
      assert b[0] in multiset(a);
      var i :| 0 <= i < |a| && a[i] == b[0];
      if i > 0 { assert StrLe(ka, SortKey(a[i], field)); } else { StrLeRefl(ka); }
    }
    StrLeAntisym(ka, kb);
  }

  /** Lists whose equal-key sublists agree and whose first keys agree have the same head. */
  lemma HeadsAgree(a: seq<Record>, b: seq<Record>, field: string)
    requires a != [] && b != [] && SortKey(a[0], field) == SortKey(b[0], field)
    requires WithKey(a, field, SortKey(a[0], field)) == WithKey(b, field, SortKey(a[0], field))
    ensures a[0] == b[0]
  {
    var k0 := SortKey(a[0], field);
    assert WithKey(a, field, k0) == [a[0]] + WithKey(a[1..], field, k0);
    assert WithKey(b, field, k0) == [b[0]] + WithKey(b[1..], field, k0);
    assert WithKey(a, field, k0)[0] == a[0] && WithKey(b, field, k0)[0] == b[0];
  }

  lemma TailsAgree(a: seq<Record>, b: seq<Record>, field: string, k: string)
    requires a != [] && b != [] && a[0] == b[0]
    requires WithKey(a, field, k) == WithKey(b, field, k)
    ensures WithKey(a[1..], field, k) == WithKey(b[1..], field, k)
  {
    var x, y := WithKey(a[1..], field, k), WithKey(b[1..], field, k);
    if SortKey(a[0], field) == k {
      assert WithKey(a, field, k) == [a[0]] + x;
      assert WithKey(b, field, k) == [a[0]] + y;
      assert x == ([a[0]] + x)[1..];
      assert y == ([a[0]] + y)[1..];
    } else {
      assert WithKey(a, field, k) == x;
      assert WithKey(b, field, k) == y;
    }
  }

  /**
   * Any permutation of `rs` that is in key order and keeps equal keys in
   * their input order is `SortByKey(rs)`: the model and any stable sort (as
   * Python's is) give the same list.
   */
  lemma {:induction false} StableSortUnique(a: seq<Record>, b: seq<Record>, field: string)
    requires multiset(a) == multiset(b)
    requires SortedBy(a, field) && SortedBy(b, field)
    requires forall k :: WithKey(a, field, k) == WithKey(b, field, k)
    ensures a == b
  {
    if a != [] {
      HeadKeysAgree(a, b, field);
      HeadsAgree(a, b, field);
      forall k
        ensures WithKey(a[1..], field, k) == WithKey(b[1..], field, k)
      {
        TailsAgree(a, b, field, k);
      }
      MultisetTails(a, b);
      assert SortedBy(a[1..], field) && SortedBy(b[1..], field);
      StableSortUnique(a[1..], b[1..], field);
      assert a == [a[0]] + a[1..] && b == [b[0]] + b[1..];
    }
  }

  /** `SortByKey` is the one stable, key-ordered permutation of its input. */
  lemma SortByKeyIsTheStableSort(rs: seq<Record>, out: seq<Record>, field: string)
    requires multiset(out) == multiset(rs) && SortedBy(out, field)
    requires forall k :: WithKey(out, field, k) == WithKey(rs, field, k)
    ensures out == SortByKey(rs, field)
  {
    SortByKeySorted(rs, field);
    forall k ensures WithKey(out, field, k) == WithKey(SortByKey(rs, field), field, k) {
      SortByKeyStable(rs, field, k);
    }
    StableSortUnique(out, SortByKey(rs, field), field);
  }

  lemma {:induction false} WithKeyMember(rs: seq<Record>, field: string, k: string, x: Record)
    requires x in WithKey(rs, field, k)
    ensures x in rs && SortKey(x, field) == k
  {
    if rs != [] && x in WithKey(rs[1..], field, k) {
      WithKeyMember(rs[1..], field, k, x);
    }
  }

  lemma {:induction false} WithKeyNone(rs: seq<Record>, field: string, k: string)
    requires forall j :: 0 <= j < |rs| ==> SortKey(rs[j], field) != k
    ensures WithKey(rs, field, k) == []
  {
    if rs != [] {
      WithKeyNone(rs[1..], field, k);
    }
  }

  /** An item with no later item of its key is the last of its key's sublist. */
  lemma WithKeyLast(rs: seq<Record>, field: string, t: nat)
    requires t < |rs|
    requires forall j :: t < j < |rs| ==> SortKey(rs[j], field) != SortKey(rs[t], field)
    ensures var w := WithKey(rs, field, SortKey(rs[t], field)); w != [] && w[|w| - 1] == rs[t]
  {
    var k := SortKey(rs[t], field);
    assert rs == rs[..t] + [rs[t]] + rs[t + 1..];
    WithKeyAppend(rs[..t] + [rs[t]], rs[t + 1..], field, k);
    WithKeyAppend(rs[..t], [rs[t]], field, k);
    WithKeyNone(rs[t + 1..], field, k);
  }

  /** Of the items with key `k`, from the `i`-th on, one is the last one. */
  lemma {:induction false} LastIndexWithKey(rs: seq<Record>, field: string, k: string, i: nat) returns (j: nat)
    requires i < |rs| && SortKey(rs[i], field) == k
    ensures i <= j < |rs| && SortKey(rs[j], field) == k
    ensures forall q :: j < q < |rs| ==> SortKey(rs[q], field) != k
  {
    var n := |rs|;
    if SortKey(rs[n - 1], field) == k {
      j := n - 1;
    } else {
      var pre := rs[..n - 1];
      j := LastIndexWithKey(pre, field, k, i);
      assert rs[j] == pre[j];
      forall q | j < q < n
        ensures SortKey(rs[q], field) != k
      {
        if q < n - 1 {
          assert rs[q] == pre[q];
        }
      }
    }
  }

  /**
   * Two lists whose sublists of one key agree place the last item of that key
   * alike: it is the last of its key in both.
   */
  lemma LastOfKeyCorresponds(a: seq<Record>, b: seq<Record>, field: string, t: nat) returns (p: nat)
    requires t < |a|
    requires forall j :: t < j < |a| ==> SortKey(a[j], field) != SortKey(a[t], field)
    requires WithKey(a, field, SortKey(a[t], field)) == WithKey(b, field, SortKey(a[t], field))
    ensures p < |b| && b[p] == a[t]
    ensures forall q :: p < q < |b| ==> SortKey(b[q], field) != SortKey(a[t], field)
  {
    var k := SortKey(a[t], field);
    WithKeyLast(a, field, t);
    var w := WithKey(b, field, k);
    assert w[|w| - 1] in w;
    WithKeyMember(b, field, k, a[t]);
    var i :| 0 <= i < |b| && b[i] == a[t];
    p := LastIndexWithKey(b, field, k, i);
    WithKeyLast(b, field, p);
  }

  /** The last item `sorted` yields has the greatest key. */
  lemma LastOfSortIsGreatest(rs: seq<Record>, field: string)
    requires rs != []
    ensures forall j :: 0 <= j < |rs| ==>
              StrLe(SortKey(rs[j], field), SortKey(SortByKey(rs, field)[|rs| - 1], field))
  {
    var s := SortByKey(rs, field);
    var n := |rs|;
    var k := SortKey(s[n - 1], field);
    SortByKeySorted(rs, field);
    forall j | 0 <= j < n
      ensures StrLe(SortKey(rs[j], field), k)
    {
      assert rs[j] in multiset(s);
      var p :| 0 <= p < n && s[p] == rs[j];
      if p == n - 1 {
        StrLeRefl(k);
      }
    }
  }

  /** `rs[t]` has the greatest key, and no later item has that key. */
  predicate LatestOfGreatest(rs: seq<Record>, field: string, t: nat)
    requires t < |rs|
  {
    && (forall j :: 0 <= j < |rs| ==> StrLe(SortKey(rs[j], field), SortKey(rs[t], field)))
    && (forall j :: t < j < |rs| ==> SortKey(rs[j], field) != SortKey(rs[t], field))
  }

  /**
   * The last item `sorted` yields is the last-scanned item among those with
   * the greatest key.
   */
  lemma LastOfSortIsLatestGreatest(rs: seq<Record>, field: string) returns (t: nat)
    requires rs != []
    ensures t < |rs| && SortByKey(rs, field)[|rs| - 1] == rs[t] && LatestOfGreatest(rs, field, t)
  {
    var s := SortByKey(rs, field);
    var n := |rs|;
    var k := SortKey(s[n - 1], field);
    SortByKeyStable(rs, field, k);
    t := LastOfKeyCorresponds(s, rs, field, n - 1);
    LastOfSortIsGreatest(rs, field);
  }

  /**
   * An item that no later item of its key follows keeps that place after
   * `sorted`: no item of its key comes after it there either.
   */
  lemma SortKeepsLastOfKey(rs: seq<Record>, field: string, t: nat) returns (p: nat)
    requires t < |rs|
    requires forall j :: t < j < |rs| ==> SortKey(rs[j], field) != SortKey(rs[t], field)
    ensures p < |rs| && SortByKey(rs, field)[p] == rs[t]
    ensures forall q :: p < q < |rs| ==> SortKey(SortByKey(rs, field)[q], field) != SortKey(rs[t], field)
  {
    SortByKeyStable(rs, field, SortKey(rs[t], field));
    p := LastOfKeyCorresponds(rs, SortByKey(rs, field), field, t);
  }
}
