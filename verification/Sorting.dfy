/** Go's sort.Strings: byte order, and why the result depends on the elements alone. */
module Sorting {

  /** Lexicographic order. */
  predicate AtMost(a: string, b: string) {
    a == "" || (b != "" && (a[0] < b[0] || (a[0] == b[0] && AtMost(a[1..], b[1..]))))
  }

  lemma {:induction false} AtMostTotal(a: string, b: string)
    ensures AtMost(a, b) || AtMost(b, a)
    ensures AtMost(a, b) && AtMost(b, a) ==> a == b
  {
    if a != "" && b != "" && a[0] == b[0] {
      AtMostTotal(a[1..], b[1..]);
      if AtMost(a, b) && AtMost(b, a) {
        assert a == [a[0]] + a[1..] && b == [b[0]] + b[1..];
      }
    }
  }

  lemma {:induction false} AtMostTransitive(a: string, b: string, c: string)
    requires AtMost(a, b) && AtMost(b, c)
    ensures AtMost(a, c)
  {
    if a != "" && a[0] == b[0] == c[0] {
      AtMostTransitive(a[1..], b[1..], c[1..]);
    }
  }

  /** At place `k` the texts differ for the first time, and `a` has the lesser byte. */
  predicate LesserAt(a: string, b: string, k: nat) {
    k < |a| && k < |b| && a[k] < b[k] && forall j :: 0 <= j < k ==> a[j] == b[j]
  }

  lemma LesserFurtherOn(a: string, b: string, k: nat)
    requires a != "" && b != ""
    ensures LesserAt(a, b, k + 1) <==> a[0] == b[0] && LesserAt(a[1..], b[1..], k)
  {
    if LesserAt(a, b, k + 1) {
      forall j | 0 <= j < k ensures a[1..][j] == b[1..][j] {
        assert a[j + 1] == b[j + 1];
      }
    }
  }

  /** `a` is a prefix of `b`, or the lesser at the first place where they differ. */
  lemma {:induction false} AtMostIff(a: string, b: string)
    ensures AtMost(a, b) <==> a <= b || exists k: nat :: LesserAt(a, b, k)
  {
    if a != "" && b != "" {
      AtMostIff(a[1..], b[1..]);
      assert LesserAt(a, b, 0) <==> a[0] < b[0];
      assert a <= b <==> a[0] == b[0] && a[1..] <= b[1..] by {
        assert a == [a[0]] + a[1..] && b == [b[0]] + b[1..];
      }
      forall k: nat ensures LesserAt(a, b, k + 1) <==> a[0] == b[0] && LesserAt(a[1..], b[1..], k) {
        LesserFurtherOn(a, b, k);
      }
      hide LesserAt;
      if k: nat :| LesserAt(a, b, k) {
        assert k > 0 ==> LesserAt(a[1..], b[1..], k - 1);
      }
    }
  }

  predicate Sorted(xs: seq<string>) {
    |xs| > 1 ==> AtMost(xs[0], xs[1]) && Sorted(xs[1..])
  }

  function Insert(x: string, xs: seq<string>): (r: seq<string>)
    ensures r != [] && multiset(r) == multiset{x} + multiset(xs)
    ensures r[0] == x || (xs != [] && r[0] == xs[0])
  {
    if xs == [] || AtMost(x, xs[0]) then
      assert multiset([x] + xs) == multiset{x} + multiset(xs);
      [x] + xs
    else
      assert xs == [xs[0]] + xs[1..];
      [xs[0]] + Insert(x, xs[1..])
  }

  function Sort(xs: seq<string>): (r: seq<string>)
    ensures multiset(r) == multiset(xs)
  {
    if xs == [] then []
    else
      assert xs == [xs[0]] + xs[1..];
      Insert(xs[0], Sort(xs[1..]))
  }

  lemma {:induction false} InsertSorted(x: string, xs: seq<string>)
    requires Sorted(xs)
    ensures Sorted(Insert(x, xs))
  {
    if xs == [] || AtMost(x, xs[0]) {
      assert ([x] + xs)[1..] == xs;
    } else {
      AtMostTotal(x, xs[0]);
      InsertSorted(x, xs[1..]);
      var r := Insert(x, xs[1..]);
      assert ([xs[0]] + r)[1..] == r;
    }
  }

  lemma {:induction false} SortSorts(xs: seq<string>)
    ensures Sorted(Sort(xs))
  {
    if xs != [] {
      SortSorts(xs[1..]);
      InsertSorted(xs[0], Sort(xs[1..]));
    }
  }

  lemma {:induction false} FirstIsLeast(xs: seq<string>, k: nat)
    requires Sorted(xs) && k < |xs|
    ensures AtMost(xs[0], xs[k])
  {
    if k == 0 {
      AtMostTotal(xs[0], xs[0]);
    } else {
      FirstIsLeast(xs[1..], k - 1);
      AtMostTransitive(xs[0], xs[1], xs[k]);
    }
  }

  lemma SameFirst(xs: seq<string>, ys: seq<string>)
    requires Sorted(xs) && Sorted(ys) && multiset(xs) == multiset(ys) && xs != []
    ensures ys != [] && xs[0] == ys[0]
  {
    hide Sorted, AtMost;
    assert |ys| == |multiset(ys)|;
    assert xs[0] in multiset(ys);
    var i :| 0 <= i < |ys| && ys[i] == xs[0];
    assert ys[0] in multiset(xs);
    var j :| 0 <= j < |xs| && xs[j] == ys[0];
    FirstIsLeast(ys, i);
    FirstIsLeast(xs, j);
    AtMostTotal(xs[0], ys[0]);
  }

  /** Two sorted lists of the same elements are the same list. */
  lemma {:induction false} SortedIsCanonical(xs: seq<string>, ys: seq<string>)
    requires Sorted(xs) && Sorted(ys) && multiset(xs) == multiset(ys)
    ensures xs == ys
  {
    assert |xs| == |multiset(xs)| == |ys|;
    if xs != [] {
      SameFirst(xs, ys);
      hide AtMost;
      assert xs == [xs[0]] + xs[1..] && ys == [ys[0]] + ys[1..];
      assert multiset(xs[1..]) == multiset(xs) - multiset{xs[0]};
      assert multiset(ys[1..]) == multiset(ys) - multiset{ys[0]};
      SortedIsCanonical(xs[1..], ys[1..]);
    }
  }

  /** Sorting forgets the order it was given. */
  lemma SortIsCanonical(xs: seq<string>, ys: seq<string>)
    requires multiset(xs) == multiset(ys)
    ensures Sort(xs) == Sort(ys)
  {
    SortSorts(xs);
    SortSorts(ys);
    SortedIsCanonical(Sort(xs), Sort(ys));
  }

  /** The members of a set, in order: what sorting a listing of a map's keys gives, whatever order
      the keys came in. */
  ghost function SortedSet(s: set<string>): (r: seq<string>)
    ensures multiset(r) == multiset(s) && Sorted(r)
    ensures forall x :: x in r <==> x in s
  {
    if s == {} then []
    else
      var x :| x in s;
      var rest := SortedSet(s - {x});
      InsertSorted(x, rest);
      OneMore(s, x);
      var r := Insert(x, rest);
      MembersAre(r, s);
      r
  }

  lemma OneMore(s: set<string>, x: string)
    requires x in s
    ensures multiset(s) == multiset{x} + multiset(s - {x})
  {
  }

  lemma MembersAre(r: seq<string>, s: set<string>)
    requires multiset(r) == multiset(s)
    ensures forall y :: y in r <==> y in s
  {
    assert forall y :: y in r <==> y in multiset(r);
  }

  lemma SortOfListing(xs: seq<string>, s: set<string>)
    requires multiset(xs) == multiset(s)
    ensures Sort(xs) == SortedSet(s)
  {
    SortSorts(xs);
    SortedIsCanonical(Sort(xs), SortedSet(s));
  }

  lemma {:induction false} SortedPair(xs: seq<string>, i: nat, j: nat)
    requires Sorted(xs) && i < j < |xs|
    ensures AtMost(xs[i], xs[j])
  {
    hide AtMost;
    if i == 0 {
      FirstIsLeast(xs, j);
    } else {
      SortedPair(xs[1..], i - 1, j - 1);
    }
  }

  lemma TwiceCounts(xs: seq<string>, i: nat, j: nat)
    requires i < j < |xs| && xs[i] == xs[j]
    ensures multiset(xs)[xs[i]] >= 2
  {
    assert xs == xs[..i] + [xs[i]] + xs[i + 1..j] + [xs[j]] + xs[j + 1..];
  }

  /** In order, and each once. */
  lemma SortedSetRises(s: set<string>, i: nat, j: nat)
    requires i < j < |SortedSet(s)|
    ensures AtMost(SortedSet(s)[i], SortedSet(s)[j]) && SortedSet(s)[i] != SortedSet(s)[j]
  {
    var xs := SortedSet(s);
    hide AtMost, Sorted, SortedSet;
    SortedPair(xs, i, j);
    if xs[i] == xs[j] {
      TwiceCounts(xs, i, j);
    }
  }

  /** A listing of a set in no particular order. */
  method Listing(s: set<string>) returns (xs: seq<string>)
    ensures multiset(xs) == multiset(s)
  {
    xs := [];
    var left := s;
    while left != {}
      invariant left <= s && multiset(xs) == multiset(s - left)
      decreases left
    {
      var x :| x in left;
      assert s - (left - {x}) == (s - left) + {x};
      xs := xs + [x];
      left := left - {x};
    }
    assert s - {} == s;
  }
}
