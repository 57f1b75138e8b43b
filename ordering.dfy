/**
 * `String.compareTo` ordering and the stream operations `sorted()` and
 * `distinct()` that the plugin applies to lists of command names.
 */
module Ordering {

  /** `a.compareTo(b) <= 0`: lexicographic by character, a proper prefix first. */
  predicate LessEq(a: string, b: string)
    decreases |a|
  {
    a == [] || (b != [] && (a[0] < b[0] || (a[0] == b[0] && LessEq(a[1..], b[1..]))))
  }

  lemma {:induction false} LessEqTotal(a: string, b: string)
    ensures LessEq(a, b) || LessEq(b, a)
    decreases |a|
  {
    if a != [] && b != [] && a[0] == b[0] {
      LessEqTotal(a[1..], b[1..]);
    }
  }

  lemma {:induction false} LessEqAntisymmetric(a: string, b: string)
    requires LessEq(a, b) && LessEq(b, a)
    ensures a == b
    decreases |a|
  {
    if a != [] {
      LessEqAntisymmetric(a[1..], b[1..]);
      assert a == [a[0]] + a[1..] && b == [b[0]] + b[1..];
    }
  }

  lemma {:induction false} LessEqTransitive(a: string, b: string, c: string)
    requires LessEq(a, b) && LessEq(b, c)
    ensures LessEq(a, c)
    decreases |a|
  {
    if a != [] && a[0] == b[0] && b[0] == c[0] {
      LessEqTransitive(a[1..], b[1..], c[1..]);
    }
  }

  predicate Sorted(xs: seq<string>)
  {
    forall i, j :: 0 <= i < j < |xs| ==> LessEq(xs[i], xs[j])
  }

  /** Sorted without repetitions, which is what `distinct().sorted()` yields. */
  predicate StrictlySorted(xs: seq<string>)
  {
    Sorted(xs) && forall i, j :: 0 <= i < j < |xs| ==> xs[i] != xs[j]
  }

  /** Insertion of one element into a sorted list. */
  function Insert(x: string, xs: seq<string>): (r: seq<string>)
    requires Sorted(xs)
    ensures Sorted(r) && multiset(r) == multiset(xs) + multiset{x}
    decreases |xs|, 1
  {
    if xs == [] then [x]
    else if LessEq(x, xs[0]) then
      assert forall j :: 0 <= j < |xs| ==> LessEq(x, xs[j]) by {
        forall j | 0 <= j < |xs| ensures LessEq(x, xs[j]) {
          if j > 0 { LessEqTransitive(x, xs[0], xs[j]); }
        }
      }
      [x] + xs
    else
      InsertAfterHead(x, xs);
      [xs[0]] + Insert(x, xs[1..])
  }

  lemma InsertAfterHead(x: string, xs: seq<string>)
    requires Sorted(xs) && xs != [] && !LessEq(x, xs[0])
    ensures Sorted([xs[0]] + Insert(x, xs[1..]))
    ensures multiset([xs[0]] + Insert(x, xs[1..])) == multiset(xs) + multiset{x}
    decreases |xs|, 0
  {
    var tail := Insert(x, xs[1..]);
    assert xs == [xs[0]] + xs[1..];
    HeadBelowAll(x, xs, tail);
    SortedCons(xs[0], tail);
  }

  /** The head of a sorted list is below every element of that list's tail with an
      element above the head added. */
  lemma HeadBelowAll(x: string, xs: seq<string>, tail: seq<string>)
    requires Sorted(xs) && xs != [] && !LessEq(x, xs[0])
    requires multiset(tail) == multiset(xs[1..]) + multiset{x}
    ensures forall k :: 0 <= k < |tail| ==> LessEq(xs[0], tail[k])
  {
    LessEqTotal(x, xs[0]);
    forall k | 0 <= k < |tail| ensures LessEq(xs[0], tail[k]) {
      var y := tail[k];
      assert y in multiset(tail);
      if y != x {
        assert y in multiset(xs[1..]);
        var i :| 0 <= i < |xs[1..]| && xs[1..][i] == y;
        assert xs[i + 1] == y;
      }
    }
  }

  lemma SortedCons(h: string, t: seq<string>)
    requires Sorted(t) && forall k :: 0 <= k < |t| ==> LessEq(h, t[k])
    ensures Sorted([h] + t)
  {
    var r := [h] + t;
    forall i, j | 0 <= i < j < |r| ensures LessEq(r[i], r[j]) {
      assert r[j] == t[j - 1];
      if i > 0 {
        assert r[i] == t[i - 1];
      }
    }
  }

  /** `stream().sorted()`: a sorted permutation of the input. */
  function Sort(xs: seq<string>): (r: seq<string>)
    ensures Sorted(r) && multiset(r) == multiset(xs)
  {
    if xs == [] then []
    else
      assert xs == [xs[0]] + xs[1..];
      Insert(xs[0], Sort(xs[1..]))
  }

  /** `stream().distinct()`: the first occurrence of each element, in order. */
  function Distinct(xs: seq<string>): (r: seq<string>)
    ensures forall x :: x in r <==> x in xs
    ensures forall i, j :: 0 <= i < j < |r| ==> r[i] != r[j]
  {
    if xs == [] then []
    else
      var prefix := Distinct(xs[..|xs| - 1]);
      assert xs == xs[..|xs| - 1] + [xs[|xs| - 1]];
      if xs[|xs| - 1] in prefix then prefix else prefix + [xs[|xs| - 1]]
  }

  /** The least element of a non-empty finite set. */
  lemma {:induction false} MinExists(s: set<string>)
    requires s != {}
    ensures exists m :: m in s && forall y :: y in s ==> LessEq(m, y)
    decreases |s|
  {
    var x :| x in s;
    if s - {x} == {} {
      assert s == {x};
      LessEqTotal(x, x);
    } else {
      MinExists(s - {x});
      var m :| m in s - {x} && forall y :: y in s - {x} ==> LessEq(m, y);
      LessEqTotal(m, x);
      if LessEq(m, x) {
        assert m in s;
        forall y | y in s ensures LessEq(m, y) {
          if y != x { assert y in s - {x}; }
        }
      } else {
        assert x in s;
        forall y | y in s ensures LessEq(x, y) {
          if y != x {
            assert y in s - {x};
            LessEqTransitive(x, m, y);
          } else {
            LessEqTotal(x, x);
          }
        }
      }
    }
  }

  /** `set.stream().sorted().toList()`: the elements of a set in increasing order. */
  function SortedElements(s: set<string>): (r: seq<string>)
    ensures StrictlySorted(r)
    ensures forall x :: x in r <==> x in s
    ensures |r| == |s|
    decreases |s|
  {
    if s == {} then []
    else
      MinExists(s);
      LeastIsUnique(s);
      var m :| m in s && forall y :: y in s ==> LessEq(m, y);
      var rest := SortedElements(s - {m});
      PrependLeast(s, m, rest);
      [m] + rest
  }

  /** Putting the least element of a set in front of a strictly sorted listing of
      the others gives a strictly sorted listing of the set. */
  lemma PrependLeast(s: set<string>, m: string, rest: seq<string>)
    requires m in s && forall y :: y in s ==> LessEq(m, y)
    requires StrictlySorted(rest) && forall x :: x in rest <==> x in s - {m}
    ensures StrictlySorted([m] + rest)
    ensures forall x :: x in [m] + rest <==> x in s
  {
    var r := [m] + rest;
    forall i, j | 0 <= i < j < |r| ensures LessEq(r[i], r[j]) && r[i] != r[j] {
      assert r[j] == rest[j - 1] && rest[j - 1] in rest;
      if i > 0 {
        assert r[i] == rest[i - 1];
      }
    }
  }

  lemma LeastIsUnique(s: set<string>)
    ensures forall m, m' ::
              (m in s && m' in s && (forall y :: y in s ==> LessEq(m, y))
               && (forall y :: y in s ==> LessEq(m', y))) ==> m == m'
  {
    forall m, m' | m in s && m' in s && (forall y :: y in s ==> LessEq(m, y))
                   && (forall y :: y in s ==> LessEq(m', y))
      ensures m == m'
    {
      LessEqAntisymmetric(m, m');
    }
  }

  /** A strictly sorted list is determined by its elements. */
  lemma {:induction false} StrictlySortedUnique(a: seq<string>, b: seq<string>)
    requires StrictlySorted(a) && StrictlySorted(b)
    requires forall x :: x in a <==> x in b
    ensures a == b
    decreases |a|
  {
    assert a != [] ==> a[0] in b;
    assert b != [] ==> b[0] in a;
    if a != [] && b != [] {
      assert a[0] == b[0] by {
        var i :| 0 <= i < |b| && b[i] == a[0];
        var j :| 0 <= j < |a| && a[j] == b[0];
        if i > 0 { assert LessEq(b[0], a[0]); } else { LessEqTotal(a[0], a[0]); }
        if j > 0 { assert LessEq(a[0], b[0]); } else { LessEqTotal(a[0], a[0]); }
        LessEqAntisymmetric(a[0], b[0]);
      }
      assert forall x :: x in a[1..] <==> x in b[1..] by {
        forall x ensures x in a[1..] <==> x in b[1..] {
          if x in a[1..] {
            var i :| 0 <= i < |a[1..]| && a[1..][i] == x;
            assert x != a[0] && x in b;
          }
          if x in b[1..] {
            var i :| 0 <= i < |b[1..]| && b[1..][i] == x;
            assert x != b[0] && x in a;
          }
        }
      }
      StrictlySortedUnique(a[1..], b[1..]);
      assert a == [a[0]] + a[1..] && b == [b[0]] + b[1..];
    }
  }

  /** `distinct().sorted()` depends only on which elements occur: it is the sorted
      listing of the set of input elements. */
  lemma SortDistinctIsSortedElements(xs: seq<string>)
    ensures Sort(Distinct(xs)) == SortedElements(set x | x in xs)
  {
    var d := Distinct(xs);
    var r := Sort(d);
    PermutationKeepsElements(d, r);
    PermutationKeepsNoDuplicates(d, r);
    StrictlySortedUnique(r, SortedElements(set x | x in xs));
  }

  lemma PermutationKeepsElements(d: seq<string>, r: seq<string>)
    requires multiset(d) == multiset(r)
    ensures forall x :: x in r <==> x in d
  {
    forall x ensures x in r <==> x in d {
      assert x in r <==> x in multiset(r);
      assert x in d <==> x in multiset(d);
    }
  }

  lemma PermutationKeepsNoDuplicates(d: seq<string>, r: seq<string>)
    requires multiset(d) == multiset(r)
    requires forall i, j :: 0 <= i < j < |d| ==> d[i] != d[j]
    ensures forall i, j :: 0 <= i < j < |r| ==> r[i] != r[j]
  {
    forall i, j | 0 <= i < j < |r| ensures r[i] != r[j] {
      if r[i] == r[j] {
        RepeatedTwice(r, i, j);
        DistinctOnce(d, r[i]);
      }
    }
  }

  /** Taking at most as many copies of each element keeps a list free of repetitions. */
  lemma SubMultisetKeepsNoDuplicates(d: seq<string>, r: seq<string>)
    requires multiset(r) <= multiset(d)
    requires forall i, j :: 0 <= i < j < |d| ==> d[i] != d[j]
    ensures forall i, j :: 0 <= i < j < |r| ==> r[i] != r[j]
  {
    forall i, j | 0 <= i < j < |r| ensures r[i] != r[j] {
      if r[i] == r[j] {
        RepeatedTwice(r, i, j);
        DistinctOnce(d, r[i]);
      }
    }
  }

  lemma RepeatedTwice(r: seq<string>, i: int, j: int)
    requires 0 <= i < j < |r| && r[i] == r[j]
    ensures multiset(r)[r[i]] >= 2
  {
    assert r == r[..j] + [r[j]] + r[j + 1..];
    assert r[..j][i] == r[i];
    assert multiset(r[..j])[r[i]] >= 1;
  }

  lemma {:induction false} DistinctOnce(d: seq<string>, x: string)
    requires forall i, j :: 0 <= i < j < |d| ==> d[i] != d[j]
    ensures multiset(d)[x] <= 1
  {
    if d != [] {
      var last := d[|d| - 1];
      var init := d[..|d| - 1];
      assert d == init + [last];
      DistinctOnce(init, x);
      if x == last {
        assert x !in init;
      }
    }
  }
}
