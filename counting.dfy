/**
 * Counting and filtering over sequences: the `sum(1 for x in xs if p(x))`
 * and `[x for x in xs if p(x)]` idioms the tracker uses throughout.
 * Both are defined from the back, so that a loop over a prefix `s[..i]`
 * extends them one element at a time.
 */
module Counting {

  /** Number of elements of `s` that satisfy `p`. */
  function Count<T>(s: seq<T>, p: T -> bool): (n: nat)
    ensures n <= |s|
  {
    if s == [] then 0
    else Count(s[..|s| - 1], p) + (if p(s[|s| - 1]) then 1 else 0)
  }

  /** The elements of `s` that satisfy `p`, in their original order. */
  function Filter<T>(s: seq<T>, p: T -> bool): (r: seq<T>)
    ensures |r| == Count(s, p)
  {
    if s == [] then []
    else Filter(s[..|s| - 1], p) + (if p(s[|s| - 1]) then [s[|s| - 1]] else [])
  }

  /** `Filter` keeps exactly the elements that satisfy `p`. */
  lemma {:induction false} FilterMembers<T(!new)>(s: seq<T>, p: T -> bool)
    ensures forall x :: x in Filter(s, p) <==> x in s && p(x)
  {
    if s != [] {
      var init := s[..|s| - 1];
      assert s == init + [s[|s| - 1]];
      FilterMembers(init, p);
    }
  }

  lemma {:induction false} CountAppend<T>(a: seq<T>, b: seq<T>, p: T -> bool)
    ensures Count(a + b, p) == Count(a, p) + Count(b, p)
  {
    if b != [] {
      var b' := b[..|b| - 1];
      assert (a + b)[..|a + b| - 1] == a + b';
      CountAppend(a, b', p);
    } else {
      assert a + b == a;
    }
  }

  lemma FilterSingleton<T(!new)>(x: T, p: T -> bool)
    ensures Filter([x], p) == if p(x) then [x] else []
  {
    assert [x][..0] == [];
  }

  lemma {:induction false} FilterAppend<T(!new)>(a: seq<T>, b: seq<T>, p: T -> bool)
    ensures Filter(a + b, p) == Filter(a, p) + Filter(b, p)
  {
    if b != [] {
      var b' := b[..|b| - 1];
      assert (a + b)[..|a + b| - 1] == a + b';
      FilterAppend(a, b', p);
    } else {
      assert a + b == a;
    }
  }

  /** Filtering a sequence with a known first element. */
  lemma FilterCons<T(!new)>(x: T, s: seq<T>, p: T -> bool)
    ensures Filter([x] + s, p) == (if p(x) then [x] else []) + Filter(s, p)
  {
    FilterAppend([x], s, p);
    FilterSingleton(x, p);
  }

  /** Filtering a non-empty sequence: its first element, then the rest. */
  lemma FilterHead<T(!new)>(s: seq<T>, p: T -> bool)
    requires s != []
    ensures Filter(s, p) == (if p(s[0]) then [s[0]] else []) + Filter(s[1..], p)
  {
    assert s == [s[0]] + s[1..];
    FilterCons(s[0], s[1..], p);
  }

  lemma CountSingleton<T>(x: T, p: T -> bool)
    ensures Count([x], p) == if p(x) then 1 else 0
  {
    assert [x][..0] == [];
  }

  /** Counting does not depend on the order of the elements. */
  lemma {:induction false} CountPermutation<T>(a: seq<T>, b: seq<T>, p: T -> bool)
    requires multiset(a) == multiset(b)
    ensures Count(a, p) == Count(b, p)
    decreases |a|
  {
    if a == [] {
      assert |b| == |multiset(b)| == 0;
    } else {
      var x := a[|a| - 1];
      assert x in multiset(b) by {
        assert x in a;
      }
      var i :| 0 <= i < |b| && b[i] == x;
      SplitLast(a);
      SplitAt(b, i);
      MultisetCancel(a[..|a| - 1], x, b[..i], b[i + 1..]);
      CountPermutation(a[..|a| - 1], b[..i] + b[i + 1..], p);
      CountSplit(b, b[..i], x, b[i + 1..], p);
    }
  }

  lemma SplitLast<T>(s: seq<T>)
    requires s != []
    ensures s == s[..|s| - 1] + [s[|s| - 1]]
  {
  }

  lemma SplitAt<T>(s: seq<T>, i: int)
    requires 0 <= i < |s|
    ensures s == s[..i] + ([s[i]] + s[i + 1..])
  {
  }

  /** Taking the same element out of two permutations leaves permutations. */
  lemma MultisetCancel<T>(a: seq<T>, x: T, front: seq<T>, back: seq<T>)
    requires multiset(a + [x]) == multiset(front + ([x] + back))
    ensures multiset(a) == multiset(front + back)
  {
    calc {
      multiset(a) + multiset{x};
      multiset(a + [x]);
      multiset(front + ([x] + back));
      multiset(front + back) + multiset{x};
    }
    assert multiset(a) == multiset(a) + multiset{x} - multiset{x};
  }

  /** Counting a sequence with a known first element. */
  lemma CountCons<T>(x: T, s: seq<T>, p: T -> bool)
    ensures Count([x] + s, p) == (if p(x) then 1 else 0) + Count(s, p)
  {
    CountAppend([x], s, p);
    CountSingleton(x, p);
  }

  /** Counting with one element taken out of the middle. */
  lemma CountSplit<T>(s: seq<T>, front: seq<T>, x: T, back: seq<T>, p: T -> bool)
    requires s == front + ([x] + back)
    ensures Count(s, p) == Count(front + back, p) + (if p(x) then 1 else 0)
  {
    CountAppend(front, [x] + back, p);
    CountCons(x, back, p);
    CountAppend(front, back, p);
  }

  /** When every element satisfies `p`, `Filter` keeps them all. */
  lemma {:induction false} FilterAll<T>(s: seq<T>, p: T -> bool)
    requires forall x :: x in s ==> p(x)
    ensures Filter(s, p) == s
  {
    if s != [] {
      var init := s[..|s| - 1];
      assert p(s[|s| - 1]) by {
        assert s[|s| - 1] in s;
      }
      forall x | x in init ensures p(x) {
        var i :| 0 <= i < |init| && init[i] == x;
        assert s[i] == x;
      }
      FilterAll(init, p);
      assert s == init + [s[|s| - 1]];
    }
  }

  /** When every element satisfies `p`, all of them are counted. */
  lemma {:induction false} CountAll<T>(s: seq<T>, p: T -> bool)
    requires forall x :: x in s ==> p(x)
    ensures Count(s, p) == |s|
  {
    if s != [] {
      assert s[|s| - 1] in s;
      CountAll(s[..|s| - 1], p);
    }
  }

  /** When no element satisfies `p`, none is counted. */
  lemma {:induction false} CountNone<T>(s: seq<T>, p: T -> bool)
    requires forall x :: x in s ==> !p(x)
    ensures Count(s, p) == 0
  {
    if s != [] {
      assert s[|s| - 1] in s;
      CountNone(s[..|s| - 1], p);
    }
  }

  /** If exactly the first `k` elements satisfy `p`, the count is `k`. */
  lemma {:induction false} CountLeading<T>(s: seq<T>, p: T -> bool, k: nat)
    requires k <= |s|
    requires forall i :: 0 <= i < |s| ==> (p(s[i]) <==> i < k)
    ensures Count(s, p) == k
  {
    assert s == s[..k] + s[k..];
    CountAppend(s[..k], s[k..], p);
    CountAll(s[..k], p);
    CountNone(s[k..], p);
  }

  /** Replacing one element changes the count by what the two elements contribute. */
  lemma CountUpdate<T>(s: seq<T>, i: nat, x: T, p: T -> bool)
    requires i < |s|
    ensures Count(s[i := x], p) + (if p(s[i]) then 1 else 0)
         == Count(s, p) + (if p(x) then 1 else 0)
  {
    assert s == s[..i] + [s[i]] + s[i + 1..];
    assert s[i := x] == s[..i] + [x] + s[i + 1..];
    CountAppend(s[..i] + [s[i]], s[i + 1..], p);
    CountAppend(s[..i], [s[i]], p);
    CountAppend(s[..i] + [x], s[i + 1..], p);
    CountAppend(s[..i], [x], p);
    CountSingleton(s[i], p);
    CountSingleton(x, p);
  }

  /** Replacing an element that `p` rejects by another that `p` rejects leaves `Filter` alone. */
  lemma FilterUpdateIgnored<T(!new)>(s: seq<T>, i: nat, x: T, p: T -> bool)
    requires i < |s| && !p(s[i]) && !p(x)
    ensures Filter(s[i := x], p) == Filter(s, p)
  {
    assert s == s[..i] + [s[i]] + s[i + 1..];
    assert s[i := x] == s[..i] + [x] + s[i + 1..];
    FilterAppend(s[..i] + [s[i]], s[i + 1..], p);
    FilterAppend(s[..i], [s[i]], p);
    FilterAppend(s[..i] + [x], s[i + 1..], p);
    FilterAppend(s[..i], [x], p);
    FilterSingleton(s[i], p);
    FilterSingleton(x, p);
  }

  /** Filtering a prefix gives a prefix of the filtered sequence. */
  lemma FilterPrefix<T(!new)>(s: seq<T>, n: nat, p: T -> bool)
    requires n <= |s|
    ensures Filter(s[..n], p) <= Filter(s, p)
  {
    assert s == s[..n] + s[n..];
    FilterAppend(s[..n], s[n..], p);
  }
}
