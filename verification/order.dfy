/**
  The order `Vec<String>::sort` puts template names in, and the sort itself.
  Rust compares strings by their UTF-8 bytes, which orders strings exactly as
  comparing their code points one after the other does.
 */
module Order {

  /** `a <= b` in lexicographic order of code points. */
  predicate Le(a: string, b: string)
    decreases |a|
  {
    |a| == 0 || (|b| > 0 && (a[0] < b[0] || (a[0] == b[0] && Le(a[1..], b[1..]))))
  }

  lemma LeTotal(a: string, b: string)
    ensures Le(a, b) || Le(b, a)
    decreases |a|
  {
    if |a| > 0 && |b| > 0 && a[0] == b[0] {
      LeTotal(a[1..], b[1..]);
    }
  }

  lemma LeReflexive(a: string)
    ensures Le(a, a)
    decreases |a|
  {
    if |a| > 0 {
      LeReflexive(a[1..]);
    }
  }

  lemma LeTransitive(a: string, b: string, c: string)
    requires Le(a, b) && Le(b, c)
    ensures Le(a, c)
    decreases |a|
  {
    if |a| > 0 && a[0] == b[0] && b[0] == c[0] {
      LeTransitive(a[1..], b[1..], c[1..]);
    }
  }

  lemma LeAntisymmetric(a: string, b: string)
    requires Le(a, b) && Le(b, a)
    ensures a == b
    decreases |a|
  {
    if |a| > 0 {
      LeAntisymmetric(a[1..], b[1..]);
      assert a == [a[0]] + a[1..] && b == [b[0]] + b[1..];
    }
  }

  predicate Sorted(xs: seq<string>) {
    forall i, j :: 0 <= i < j < |xs| ==> Le(xs[i], xs[j])
  }

  /** Putting a lower bound of a sorted sequence in front keeps it sorted. */
  lemma ConsSorted(x: string, xs: seq<string>)
    requires Sorted(xs)
    requires forall j :: 0 <= j < |xs| ==> Le(x, xs[j])
    ensures Sorted([x] + xs)
  {
    var r := [x] + xs;
    forall i, j | 0 <= i < j < |r|
      ensures Le(r[i], r[j])
    {
      if i > 0 {
        assert r[i] == xs[i - 1] && r[j] == xs[j - 1];
      }
    }
  }

  /** A lower bound of the head of a sorted sequence bounds all of it. */
  lemma BelowHead(x: string, xs: seq<string>)
    requires Sorted(xs) && |xs| > 0 && Le(x, xs[0])
    ensures forall j :: 0 <= j < |xs| ==> Le(x, xs[j])
  {
    forall j | 0 < j < |xs|
      ensures Le(x, xs[j])
    {
      LeTransitive(x, xs[0], xs[j]);
    }
  }

  /** A bound of `x` and of every element of `tail` bounds any arrangement of them. */
  lemma BoundsArrangement(h: string, x: string, tail: seq<string>, rest: seq<string>)
    requires multiset(rest) == multiset(tail) + multiset{x}
    requires Le(h, x)
    requires forall j :: 0 <= j < |tail| ==> Le(h, tail[j])
    ensures forall j :: 0 <= j < |rest| ==> Le(h, rest[j])
  {
    forall j | 0 <= j < |rest|
      ensures Le(h, rest[j])
    {
      assert rest[j] in multiset(rest);
      if rest[j] != x {
        assert rest[j] in multiset(tail);
        var i :| 0 <= i < |tail| && tail[i] == rest[j];
      }
    }
  }

  /** Insert `x` into a sorted sequence, before the first element it does not exceed. */
  function Insert(x: string, xs: seq<string>): (r: seq<string>)
    requires Sorted(xs)
    ensures Sorted(r)
    ensures multiset(r) == multiset(xs) + multiset{x}
    decreases |xs|
  {
    if |xs| == 0 then [x]
    else if Le(x, xs[0]) then
      BelowHead(x, xs);
      ConsSorted(x, xs);
      [x] + xs
    else
      var rest := Insert(x, xs[1..]);
      assert xs == [xs[0]] + xs[1..];
      LeTotal(x, xs[0]);
      BoundsArrangement(xs[0], x, xs[1..], rest);
      ConsSorted(xs[0], rest);
      [xs[0]] + rest
  }

  /** `sort`: an ordered permutation of its input. */
  function Sort(xs: seq<string>): (r: seq<string>)
    ensures Sorted(r)
    ensures multiset(r) == multiset(xs)
    decreases |xs|
  {
    if |xs| == 0 then []
    else
      assert xs == [xs[0]] + xs[1..];
      Insert(xs[0], Sort(xs[1..]))
  }

  lemma SortedHeadsAgree(a: seq<string>, b: seq<string>)
    requires Sorted(a) && Sorted(b)
    requires multiset(a) == multiset(b) && |a| > 0
    ensures |b| > 0 && a[0] == b[0]
  {
    assert a[0] in multiset(b);
    var i :| 0 <= i < |b| && b[i] == a[0];
    assert b[0] in multiset(a);
    var j :| 0 <= j < |a| && a[j] == b[0];
    LeReflexive(a[0]);
    assert Le(b[0], a[0]) by { if i > 0 { assert Le(b[0], b[i]); } }
    assert Le(a[0], b[0]) by { if j > 0 { assert Le(a[0], a[j]); } }
    LeAntisymmetric(a[0], b[0]);
  }

  lemma DropHead(a: seq<string>)
    requires |a| > 0
    ensures multiset(a[1..]) == multiset(a) - multiset{a[0]}
  {
    assert a == [a[0]] + a[1..];
  }

  /**
    Two sorted sequences holding the same strings are equal, so the sorted
    list does not depend on the order its elements were produced in.
   */
  lemma {:induction false} SortedUnique(a: seq<string>, b: seq<string>)
    requires Sorted(a) && Sorted(b)
    requires multiset(a) == multiset(b)
    ensures a == b
    decreases |a|
  {
    if |a| == 0 {
      assert |b| == |multiset(b)| == 0;
    } else {
      SortedHeadsAgree(a, b);
      DropHead(a);
      DropHead(b);
      SortedUnique(a[1..], b[1..]);
      assert a == [a[0]] + a[1..] && b == [b[0]] + b[1..];
    }
  }

  /** Sorting neither adds nor drops a string. */
  lemma SortKeepsMembers(xs: seq<string>)
    ensures forall t :: t in Sort(xs) <==> t in xs
    ensures |Sort(xs)| == |xs|
  {
    var r := Sort(xs);
    forall t
      ensures t in r <==> t in xs
    {
      assert t in r <==> t in multiset(r);
      assert t in xs <==> t in multiset(xs);
    }
    assert |r| == |multiset(r)| == |multiset(xs)| == |xs|;
  }

  /** Sorting two arrangements of the same strings gives the same list. */
  lemma SortIgnoresInputOrder(xs: seq<string>, ys: seq<string>)
    requires multiset(xs) == multiset(ys)
    ensures Sort(xs) == Sort(ys)
  {
    SortedUnique(Sort(xs), Sort(ys));
  }

  /** No string appears twice. */
  predicate Distinct(xs: seq<string>) {
    forall i, j :: 0 <= i < j < |xs| ==> xs[i] != xs[j]
  }

  /** A sequence that mentions every element of `s` is at least as long as `s` is large. */
  lemma {:induction false} CoverSize(xs: seq<string>, s: set<string>)
    requires forall x :: x in s ==> x in xs
    ensures |s| <= |xs|
    decreases |xs|
  {
    if |xs| > 0 {
      var rest := s - {xs[0]};
      forall x | x in rest
        ensures x in xs[1..]
      {
        assert x in xs && x != xs[0];
      }
      CoverSize(xs[1..], rest);
    } else {
      assert s == {};
    }
  }

  /**
    A sequence that lists exactly the elements of `s`, and is no longer than
    `s` is large, lists each of them once.
   */
  lemma {:induction false} ExactCoverIsDistinct(xs: seq<string>, s: set<string>)
    requires |xs| == |s|
    requires forall x :: x in xs <==> x in s
    ensures Distinct(xs)
    decreases |xs|
  {
    if |xs| > 0 {
      var h, t := xs[0], xs[1..];
      assert xs == [h] + t;
      if h in t {
        forall x | x in s
          ensures x in t
        {
          assert x in xs;
        }
        CoverSize(t, s);
        assert false;
      }
      ExactCoverIsDistinct(t, s - {h});
    }
  }

  /** In a sequence without repeats every string occurs once or not at all. */
  lemma {:induction false} DistinctCount(xs: seq<string>, x: string)
    requires Distinct(xs)
    ensures multiset(xs)[x] == if x in xs then 1 else 0
    decreases |xs|
  {
    if |xs| > 0 {
      assert xs == [xs[0]] + xs[1..];
      assert xs[0] !in xs[1..];
      DistinctCount(xs[1..], x);
    }
  }

  /**
    Two sequences without repeats that hold the same strings sort to the
    same list, whatever order each was produced in.
   */
  lemma SameMembersSameSort(xs: seq<string>, ys: seq<string>)
    requires Distinct(xs) && Distinct(ys)
    requires forall x :: x in xs <==> x in ys
    ensures Sort(xs) == Sort(ys)
  {
    forall x
      ensures multiset(xs)[x] == multiset(ys)[x]
    {
      DistinctCount(xs, x);
      DistinctCount(ys, x);
    }
    assert multiset(xs) == multiset(ys);
    SortIgnoresInputOrder(xs, ys);
  }
}
