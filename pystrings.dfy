/**
 * The two pieces of Python string semantics the handlers rely on: comparison
 * of `str` values (the sort keys are compared as text) and `int(text)`.
 */
module PyStrings {
  import opened Wrappers

  /**
   * Python's `a <= b` on `str`: lexicographic by code point, with a proper
   * prefix ordered first.
   */
  predicate StrLe(a: string, b: string)
    decreases |a|
  {
    a == [] || (b != [] && (a[0] < b[0] || (a[0] == b[0] && StrLe(a[1..], b[1..]))))
  }

  lemma {:induction false} StrLeRefl(a: string)
    ensures StrLe(a, a)
  {
    if a != [] {
      StrLeRefl(a[1..]);
    }
  }

  lemma {:induction false} StrLeTotal(a: string, b: string)
    ensures StrLe(a, b) || StrLe(b, a)
  {
    if a != [] && b != [] && a[0] == b[0] {
      StrLeTotal(a[1..], b[1..]);
    }
  }

  lemma {:induction false} StrLeTrans(a: string, b: string, c: string)
    requires StrLe(a, b) && StrLe(b, c)
    ensures StrLe(a, c)
  {
    if a != [] && a[0] == b[0] && b[0] == c[0] {
      StrLeTrans(a[1..], b[1..], c[1..]);
    }
  }

  lemma {:induction false} StrLeAntisym(a: string, b: string)
    requires StrLe(a, b) && StrLe(b, a)
    ensures a == b
  {
    if a != [] {
      StrLeAntisym(a[1..], b[1..]);
      assert a == [a[0]] + a[1..] && b == [b[0]] + b[1..];
    }
  }

  /**
   * `StrLe` is the textbook lexicographic order: `a` is a prefix of `b`, or
   * the two agree up to a first position where `a` has the smaller code point.
   */
  lemma StrLeExactly(a: string, b: string)
    ensures StrLe(a, b) <==> a <= b || exists k :: 0 <= k < |a| && k < |b| && a[..k] == b[..k] && a[k] < b[k]
  {
    if StrLe(a, b) {
      StrLeWitness(a, b);
    } else {
      if a <= b {
        StrLeOfPrefix(a, b);
      }
      if k :| 0 <= k < |a| && k < |b| && a[..k] == b[..k] && a[k] < b[k] {
        StrLeOfFirstDifference(a, b, k);
      }
    }
  }

  lemma {:induction false} StrLeOfPrefix(a: string, b: string)
    requires a <= b
    ensures StrLe(a, b)
  {
    if a != [] {
      assert a[1..] <= b[1..];
      StrLeOfPrefix(a[1..], b[1..]);
    }
  }

  lemma {:induction false} StrLeOfFirstDifference(a: string, b: string, k: nat)
    requires k < |a| && k < |b| && a[..k] == b[..k] && a[k] < b[k]
    ensures StrLe(a, b)
  {
    if k > 0 {
      assert a[0] == a[..k][0] == b[..k][0] == b[0];
      assert a[1..][..k - 1] == a[..k][1..] && b[1..][..k - 1] == b[..k][1..];
      StrLeOfFirstDifference(a[1..], b[1..], k - 1);
    }
  }

  lemma {:induction false} StrLeWitness(a: string, b: string)
    requires StrLe(a, b)
    ensures a <= b || exists k :: 0 <= k < |a| && k < |b| && a[..k] == b[..k] && a[k] < b[k]
  {
    if a != [] && a[0] == b[0] && !(a[0] < b[0]) {
      var a', b' := a[1..], b[1..];
      StrLeWitness(a', b');
      if a' <= b' {
        assert a == [a[0]] + a' && b == [b[0]] + b';
      } else {
        var k :| 0 <= k < |a'| && k < |b'| && a'[..k] == b'[..k] && a'[k] < b'[k];
        assert a[..k + 1] == [a[0]] + a'[..k] && b[..k + 1] == [b[0]] + b'[..k];
        assert a[k + 1] == a'[k] && b[k + 1] == b'[k];
      }
    } else if a != [] {
      assert a[..0] == b[..0];
    }
  }

  predicate IsDigit(c: char)
  {
    '0' <= c <= '9'
  }

  predicate IsDigits(s: string)
  {
    forall i :: 0 <= i < |s| ==> IsDigit(s[i])
  }

  function Pow10(n: nat): (p: nat)
    ensures p >= 1
  {
    if n == 0 then 1 else 10 * Pow10(n - 1)
  }

  /** The number a string of decimal digits denotes, most significant digit first. */
  function DigitsValue(s: string): nat
    requires IsDigits(s)
    decreases |s|
  {
    if s == [] then 0 else (s[0] as int - '0' as int) * Pow10(|s| - 1) + DigitsValue(s[1..])
  }

  /** An optional sign followed by at least one ASCII digit. */
  predicate IsIntText(s: string)
  {
    (s != [] && IsDigits(s)) || (|s| > 1 && (s[0] == '-' || s[0] == '+') && IsDigits(s[1..]))
  }

  /**
   * Python's `int(text)` for an optional sign followed by ASCII digits; None
   * where Python raises ValueError.
   */
  function ParseInt(s: string): (r: Option<int>)
    ensures r.Some? <==> IsIntText(s)
    ensures s != [] && IsDigits(s) ==> r == Some(DigitsValue(s))
    ensures |s| > 1 && (s[0] == '-' || s[0] == '+') && IsDigits(s[1..]) ==>
              r == Some(if s[0] == '-' then -(DigitsValue(s[1..]) as int) else DigitsValue(s[1..]))
    ensures r.Some? && s[0] == '-' ==> r.value <= 0
    ensures r.Some? && s[0] != '-' ==> r.value >= 0
  {
    if |s| > 1 && s[0] == '-' && IsDigits(s[1..]) then Some(-(DigitsValue(s[1..]) as int))
    else if |s| > 1 && s[0] == '+' && IsDigits(s[1..]) then Some(DigitsValue(s[1..]))
    else if s != [] && IsDigits(s) then Some(DigitsValue(s))
    else None
  }

  lemma MulLe(a: int, b: int, c: nat)
    requires a <= b
    ensures a * c <= b * c
  {
  }

  lemma {:induction false} DigitsValueBound(s: string)
    requires IsDigits(s)
    ensures DigitsValue(s) < Pow10(|s|)
  {
    if s != [] {
      DigitsValueBound(s[1..]);
      var d, p := s[0] as int - '0' as int, Pow10(|s| - 1);
      assert 0 <= d <= 9 by { assert IsDigit(s[0]); }
      assert DigitsValue(s) == d * p + DigitsValue(s[1..]);
      assert Pow10(|s|) == 10 * p;
      MulLe(d, 9, p);
    }
  }

  /** Of two numbers in base `p`, the smaller leading digit gives the smaller number. */
  lemma LeadingDigitDecides(da: int, db: int, p: nat, ra: nat, rb: nat)
    requires da < db && ra < p
    ensures da * p + ra < db * p + rb
  {
    MulLe(da + 1, db, p);
    assert (da + 1) * p == da * p + p;
  }

  /**
   * For digit strings of one width, text order is numeric order: the string
   * comparison the sorts use orders epochs of equal width chronologically.
   */
  lemma {:induction false} LexOrderIsNumeric(a: string, b: string)
    requires IsDigits(a) && IsDigits(b) && |a| == |b|
    ensures StrLe(a, b) <==> DigitsValue(a) <= DigitsValue(b)
  {
    if a != [] {
      var p := Pow10(|a| - 1);
      var da, db := a[0] as int - '0' as int, b[0] as int - '0' as int;
      var ra, rb := DigitsValue(a[1..]), DigitsValue(b[1..]);
      assert DigitsValue(a) == da * p + ra;
      assert DigitsValue(b) == db * p + rb;
      if a[0] == b[0] {
        LexOrderIsNumeric(a[1..], b[1..]);
      } else if a[0] < b[0] {
        DigitsValueBound(a[1..]);
        LeadingDigitDecides(da, db, p, ra, rb);
      } else {
        DigitsValueBound(b[1..]);
        LeadingDigitDecides(db, da, p, rb, ra);
      }
    }
  }

  /** A leading sign is read as Python reads it: "-12" is -12 and "+12" is 12. */
  lemma SignedText()
    ensures ParseInt("-12") == Some(-12) && ParseInt("+12") == Some(12) && ParseInt("-") == None
  {
    assert "-12"[1..] == "12" && "+12"[1..] == "12";
    assert DigitsValue("12") == 12 by {
      assert "12"[1..] == "2" && DigitsValue("2") == 2;
    }
  }

  /** For digit strings of different widths it is not: "10" sorts before "9". */
  lemma LexOrderNotNumeric()
    ensures ParseInt("9") == Some(9) && ParseInt("10") == Some(10)
    ensures StrLe("10", "9") && !StrLe("9", "10")
  {
    assert DigitsValue("0") == 0;
    assert DigitsValue("10") == 10;
  }
}
