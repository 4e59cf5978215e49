/** Facts about sequences and their multisets, independent of what they hold. */
module SeqFacts {
  /** Sequences with one multiset have the same members. */
  lemma SameMembers<T>(a: seq<T>, b: seq<T>)
    requires multiset(a) == multiset(b)
    ensures forall x :: x in a <==> x in b
  {
    forall x
      ensures x in a <==> x in b
    {
      assert x in a <==> x in multiset(a);
      assert x in b <==> x in multiset(b);
    }
  }

  /** Dropping an equal head from two permutations of one another leaves permutations. */
  lemma MultisetTails<T>(a: seq<T>, b: seq<T>)
    requires a != [] && b != [] && a[0] == b[0] && multiset(a) == multiset(b)
    ensures multiset(a[1..]) == multiset(b[1..])
  {
    assert a == [a[0]] + a[1..] && b == [b[0]] + b[1..];
    assert multiset(a[1..]) == multiset(a) - multiset{a[0]};
    assert multiset(b[1..]) == multiset(b) - multiset{b[0]};
  }

  /** When one of two prefixes is empty, the order in which both are put in front does not matter. */
  lemma PrependEitherEmpty<T>(h: seq<T>, w: seq<T>, t: seq<T>)
    requires h == [] || w == []
    ensures h + (w + t) == w + (h + t)
  {
    if h == [] {
      assert h + (w + t) == w + t;
    } else {
      assert w + (h + t) == h + t;
    }
  }
}
