/**
 * Byte-wise lexicographic order on strings (Go's `<` on string), used to fix
 * the order in which matches and required-by children are rendered, where the
 * program itself iterates a Go map in unspecified order.
 */
module StringOrder {

  /** `a` sorts strictly before `b`. */
  predicate Less(a: string, b: string)
    decreases |a|
  {
    |b| > 0 && (|a| == 0 || a[0] < b[0] || (a[0] == b[0] && Less(a[1..], b[1..])))
  }

  lemma {:induction false} LessIrreflexive(a: string)
    ensures !Less(a, a)
    decreases |a|
  {
    if |a| > 0 { LessIrreflexive(a[1..]); }
  }

  lemma {:induction false} LessTransitive(a: string, b: string, c: string)
    requires Less(a, b) && Less(b, c)
    ensures Less(a, c)
    decreases |a|
  {
    if |a| > 0 && a[0] == b[0] && b[0] == c[0] {
      LessTransitive(a[1..], b[1..], c[1..]);
    }
  }

  lemma {:induction false} LessTotal(a: string, b: string)
    requires a != b
    ensures Less(a, b) || Less(b, a)
    decreases |a|
  {
    if |a| > 0 && |b| > 0 && a[0] == b[0] {
      assert a == [a[0]] + a[1..] && b == [b[0]] + b[1..];
      LessTotal(a[1..], b[1..]);
    }
  }

  lemma LessAsymmetric(a: string, b: string)
    requires Less(a, b)
    ensures !Less(b, a)
  {
    if Less(b, a) {
      LessTransitive(a, b, a);
      LessIrreflexive(a);
    }
  }

  predicate IsMinimum(m: string, s: set<string>)
  {
    m in s && forall x :: x in s && x != m ==> Less(m, x)
  }

  lemma {:induction false} MinimumExists(s: set<string>)
    requires s != {}
    ensures exists m :: IsMinimum(m, s)
    decreases |s|
  {
    var x :| x in s;
    if s - {x} == {} {
      assert s == {x};
      assert IsMinimum(x, s);
    } else {
      MinimumExists(s - {x});
      var m :| IsMinimum(m, s - {x});
      if Less(m, x) {
        assert IsMinimum(m, s);
      } else {
        LessTotal(m, x);
        forall y | y in s && y != x
          ensures Less(x, y)
        {
          if y != m { LessTransitive(x, m, y); }
        }
        assert IsMinimum(x, s);
      }
    }
  }

  lemma MinimumUnique(m1: string, m2: string, s: set<string>)
    requires IsMinimum(m1, s) && IsMinimum(m2, s)
    ensures m1 == m2
  {
    if m1 != m2 {
      LessAsymmetric(m1, m2);
    }
  }

  /** The least string of a non-empty set. */
  function Minimum(s: set<string>): (m: string)
    requires s != {}
    ensures m in s && forall x :: x in s && x != m ==> Less(m, x)
  {
    MinimumExists(s);
    assert forall m1, m2 :: IsMinimum(m1, s) && IsMinimum(m2, s) ==> m1 == m2 by {
      forall m1, m2 | IsMinimum(m1, s) && IsMinimum(m2, s) ensures m1 == m2 {
        MinimumUnique(m1, m2, s);
      }
    }
    var m :| IsMinimum(m, s);
    m
  }

  /** Strictly increasing, hence also free of repetitions. */
  predicate StrictlySorted(r: seq<string>)
  {
    forall i, j :: 0 <= i < j < |r| ==> Less(r[i], r[j])
  }

  /** The elements of a finite set of strings in increasing order. */
  function SortedKeys(s: set<string>): (r: seq<string>)
    ensures |r| == |s|
    ensures forall x :: x in r <==> x in s
    ensures StrictlySorted(r)
    decreases |s|
  {
    if s == {} then []
    else
      var m := Minimum(s);
      [m] + SortedKeys(s - {m})
  }

  /** Every later element of a strictly sorted sequence differs from its head. */
  lemma TailAvoidsHead(r: seq<string>, x: string)
    requires StrictlySorted(r) && |r| > 0 && x in r[1..]
    ensures x in r && x != r[0]
  {
    var i :| 0 <= i < |r| - 1 && r[1..][i] == x;
    assert Less(r[0], r[i + 1]);
    LessIrreflexive(x);
  }

  /** A set has only one strictly sorted enumeration. */
  lemma {:induction false} SortedUnique(r1: seq<string>, r2: seq<string>)
    requires StrictlySorted(r1) && StrictlySorted(r2)
    requires forall x :: x in r1 <==> x in r2
    ensures r1 == r2
    decreases |r1|
  {
    assert |r1| > 0 ==> r1[0] in r2;
    assert |r2| > 0 ==> r2[0] in r1;
    if |r1| > 0 {
      if r1[0] != r2[0] {
        assert r2[0] in r2 && r1[0] in r1;
        var j1 :| 0 <= j1 < |r1| && r1[j1] == r2[0];
        var j2 :| 0 <= j2 < |r2| && r2[j2] == r1[0];
        assert Less(r1[0], r2[0]) && Less(r2[0], r1[0]);
        LessAsymmetric(r1[0], r2[0]);
      }
      forall x ensures x in r1[1..] <==> x in r2[1..] {
        if x in r1[1..] {
          TailAvoidsHead(r1, x);
          assert x in r2 && x != r2[0];
          assert r2 == [r2[0]] + r2[1..];
        }
        if x in r2[1..] {
          TailAvoidsHead(r2, x);
          assert x in r1 && x != r1[0];
          assert r1 == [r1[0]] + r1[1..];
        }
      }
      SortedUnique(r1[1..], r2[1..]);
      assert r1 == [r1[0]] + r1[1..] && r2 == [r2[0]] + r2[1..];
    }
  }
}
