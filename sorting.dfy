/**
 * A stable sort in descending order of an integer key: the behaviour of
 * `sorted(xs, key=key, reverse=True)`, which keeps elements with equal keys
 * in their original relative order.  The tracker sorts a habit's entries by
 * date and the active habits by streak this way.
 */
module Sorting {
  import opened Counting

  /** Keys never increase from left to right. */
  predicate Descending<T>(s: seq<T>, key: T -> int) {
    forall i, j :: 0 <= i < j < |s| ==> key(s[i]) >= key(s[j])
  }

  /** Keys strictly decrease from left to right. */
  predicate StrictlyDescending<T>(s: seq<T>, key: T -> int) {
    forall i, j :: 0 <= i < j < |s| ==> key(s[i]) > key(s[j])
  }

  /** No two elements share a key. */
  predicate DistinctKeys<T>(s: seq<T>, key: T -> int) {
    forall i, j :: 0 <= i < j < |s| ==> key(s[i]) != key(s[j])
  }

  /** The test "has key `k`", as a predicate usable with `Filter`. */
  function HasKey<T>(key: T -> int, k: int): T -> bool {
    x => key(x) == k
  }

  /**
   * Puts `x` in front of the first element whose key is not larger than its
   * own, so that `x` stays ahead of the elements with an equal key.
   */
  function Insert<T>(x: T, s: seq<T>, key: T -> int): (r: seq<T>)
    ensures multiset(r) == multiset(s) + multiset{x}
  {
    if s == [] || key(x) >= key(s[0]) then [x] + s
    else
      assert s == [s[0]] + s[1..];
      [s[0]] + Insert(x, s[1..], key)
  }

  function SortDesc<T>(s: seq<T>, key: T -> int): (r: seq<T>)
    ensures multiset(r) == multiset(s)
  {
    if s == [] then []
    else
      assert s == [s[0]] + s[1..];
      Insert(s[0], SortDesc(s[1..], key), key)
  }

  /** Inserting `x` keeps every key at most `b` when `x`'s key and all keys of `s` are. */
  lemma InsertBounded<T>(x: T, s: seq<T>, key: T -> int, b: int)
    requires key(x) <= b
    requires forall y :: y in s ==> key(y) <= b
    ensures forall y :: y in Insert(x, s, key) ==> key(y) <= b
  {
    forall y | y in Insert(x, s, key) ensures key(y) <= b {
      assert y in multiset(Insert(x, s, key));
      assert y == x || y in multiset(s);
    }
  }

  /** Putting `h` in front of a descending `t` whose keys are at most `key(h)` keeps it descending. */
  lemma ConsDescending<T>(h: T, t: seq<T>, key: T -> int)
    requires Descending(t, key)
    requires forall y :: y in t ==> key(y) <= key(h)
    ensures Descending([h] + t, key)
  {
    forall i, j | 0 <= i < j < |[h] + t| ensures key(([h] + t)[i]) >= key(([h] + t)[j]) {
      assert ([h] + t)[j] == t[j - 1] && t[j - 1] in t;
      if i > 0 {
        assert ([h] + t)[i] == t[i - 1];
      }
    }
  }

  /** Putting `h` in front of a strictly descending `t` whose keys are below `key(h)` keeps it strict. */
  lemma ConsStrictly<T>(h: T, t: seq<T>, key: T -> int)
    requires StrictlyDescending(t, key)
    requires forall y :: y in t ==> key(y) < key(h)
    ensures StrictlyDescending([h] + t, key)
  {
    forall i, j | 0 <= i < j < |[h] + t| ensures key(([h] + t)[i]) > key(([h] + t)[j]) {
      assert ([h] + t)[j] == t[j - 1] && t[j - 1] in t;
      if i > 0 {
        assert ([h] + t)[i] == t[i - 1];
      }
    }
  }

  /** The keys after the head of a descending sequence are at most the head's key. */
  lemma TailBelowHead<T>(s: seq<T>, key: T -> int)
    requires s != [] && Descending(s, key)
    ensures Descending(s[1..], key)
    ensures forall y :: y in s[1..] ==> key(y) <= key(s[0])
  {
    forall y | y in s[1..] ensures key(y) <= key(s[0]) {
      var j :| 0 <= j < |s[1..]| && s[1..][j] == y;
      assert s[j + 1] == y;
    }
    forall i, j | 0 <= i < j < |s[1..]| ensures key(s[1..][i]) >= key(s[1..][j]) {
      assert s[1..][i] == s[i + 1] && s[1..][j] == s[j + 1];
    }
  }

  lemma {:induction false} InsertDescending<T>(x: T, s: seq<T>, key: T -> int)
    requires Descending(s, key)
    ensures Descending(Insert(x, s, key), key)
  {
    if s == [] {
      ConsDescending(x, s, key);
    } else if key(x) >= key(s[0]) {
      TailBelowHead(s, key);
      ConsDescending(x, s, key);
    } else {
      TailBelowHead(s, key);
      InsertDescending(x, s[1..], key);
      InsertBounded(x, s[1..], key, key(s[0]));
      ConsDescending(s[0], Insert(x, s[1..], key), key);
    }
  }

  /** The result of the sort is in descending key order. */
  lemma {:induction false} SortDescDescending<T>(s: seq<T>, key: T -> int)
    ensures Descending(SortDesc(s, key), key)
  {
    if s != [] {
      SortDescDescending(s[1..], key);
      InsertDescending(s[0], SortDesc(s[1..], key), key);
    }
  }

  lemma {:induction false} InsertStrictly<T>(x: T, s: seq<T>, key: T -> int)
    requires StrictlyDescending(s, key)
    requires forall y :: y in s ==> key(y) != key(x)
    ensures StrictlyDescending(Insert(x, s, key), key)
  {
    assert Descending(s, key);
    if s == [] {
      ConsStrictly(x, s, key);
    } else {
      TailBelowHead(s, key);
      assert s[0] in s;
      if key(x) >= key(s[0]) {
        ConsStrictly(x, s, key);
      } else {
        assert StrictlyDescending(s[1..], key) by {
          forall i, j | 0 <= i < j < |s[1..]| ensures key(s[1..][i]) > key(s[1..][j]) {
            assert s[1..][i] == s[i + 1] && s[1..][j] == s[j + 1];
          }
        }
        forall y | y in s[1..] ensures key(y) < key(s[0]) {
          var j :| 0 <= j < |s[1..]| && s[1..][j] == y;
          assert s[j + 1] == y;
        }
        InsertStrictly(x, s[1..], key);
        InsertBounded(x, s[1..], key, key(s[0]) - 1);
        ConsStrictly(s[0], Insert(x, s[1..], key), key);
      }
    }
  }

  /** With pairwise distinct keys the sorted order is strict. */
  lemma {:induction false} SortDescStrictly<T>(s: seq<T>, key: T -> int)
    requires DistinctKeys(s, key)
    ensures StrictlyDescending(SortDesc(s, key), key)
  {
    if s != [] {
      var rest := s[1..];
      assert DistinctKeys(rest, key) by {
        forall i, j | 0 <= i < j < |rest| ensures key(rest[i]) != key(rest[j]) {
          assert rest[i] == s[i + 1] && rest[j] == s[j + 1];
        }
      }
      SortDescStrictly(rest, key);
      var t := SortDesc(rest, key);
      forall y | y in t ensures key(y) != key(s[0]) {
        assert y in multiset(t);
        assert y in multiset(rest);
        var j :| 0 <= j < |rest| && rest[j] == y;
        assert s[j + 1] == y;
      }
      InsertStrictly(s[0], t, key);
    }
  }

  /** Inserting `x` adds it in front of the elements with its key. */
  lemma {:induction false} InsertStable<T(!new)>(x: T, s: seq<T>, key: T -> int, k: int)
    ensures Filter(Insert(x, s, key), HasKey(key, k))
         == (if key(x) == k then [x] else []) + Filter(s, HasKey(key, k))
  {
    var p := HasKey(key, k);
    if s == [] || key(x) >= key(s[0]) {
      FilterSingleton(x, p);
      assert Insert(x, s, key) == [x] + s;
      FilterAppend([x], s, p);
    } else {
      InsertStable(x, s[1..], key, k);
      PassLarger(x, s, key, k);
    }
  }

  /** One step of `InsertStable`: `x` passes over an element with a larger key. */
  lemma PassLarger<T(!new)>(x: T, s: seq<T>, key: T -> int, k: int)
    requires s != [] && key(x) < key(s[0])
    requires Filter(Insert(x, s[1..], key), HasKey(key, k))
          == (if key(x) == k then [x] else []) + Filter(s[1..], HasKey(key, k))
    ensures Filter(Insert(x, s, key), HasKey(key, k))
         == (if key(x) == k then [x] else []) + Filter(s, HasKey(key, k))
  {
    var t := Insert(x, s[1..], key);
    assert Insert(x, s, key) == [s[0]] + t;
    FilterBehindHead(s, t, if key(x) == k then [x] else [], HasKey(key, k));
  }

  /**
   * Putting the head of `s` back in front of `t`, whose filtered elements
   * are `front` followed by those of the rest of `s`, keeps `front` ahead
   * as long as the head itself is not selected alongside a non-empty `front`.
   */
  lemma FilterBehindHead<T(!new)>(s: seq<T>, t: seq<T>, front: seq<T>, p: T -> bool)
    requires s != []
    requires Filter(t, p) == front + Filter(s[1..], p)
    requires p(s[0]) ==> front == []
    ensures Filter([s[0]] + t, p) == front + Filter(s, p)
  {
    FilterCons(s[0], t, p);
    FilterHead(s, p);
  }

  /**
   * Stability: the elements that share any one key appear in the sorted
   * result in the same order as in the input.
   */
  lemma {:induction false} SortDescStable<T(!new)>(s: seq<T>, key: T -> int, k: int)
    ensures Filter(SortDesc(s, key), HasKey(key, k)) == Filter(s, HasKey(key, k))
  {
    if s != [] {
      var p := HasKey(key, k);
      var t := SortDesc(s[1..], key);
      var front := if key(s[0]) == k then [s[0]] else [];
      calc {
        Filter(SortDesc(s, key), p);
        Filter(Insert(s[0], t, key), p);
        { InsertStable(s[0], t, key, k); }
        front + Filter(t, p);
        { SortDescStable(s[1..], key, k); }
        front + Filter(s[1..], p);
        { FilterSingleton(s[0], p); }
        Filter([s[0]], p) + Filter(s[1..], p);
        { FilterAppend([s[0]], s[1..], p); }
        Filter([s[0]] + s[1..], p);
        { assert [s[0]] + s[1..] == s; }
        Filter(s, p);
      }
    }
  }

  lemma SortDescCons<T>(y: T, t: seq<T>, key: T -> int)
    ensures SortDesc([y] + t, key) == Insert(y, SortDesc(t, key), key)
  {
    assert ([y] + t)[0] == y && ([y] + t)[1..] == t;
  }

  lemma InsertBehind<T>(x: T, y: T, t: seq<T>, key: T -> int)
    requires key(x) < key(y)
    ensures Insert(x, [y] + t, key) == [y] + Insert(x, t, key)
  {
    assert ([y] + t)[0] == y && ([y] + t)[1..] == t;
  }

  lemma InsertInFront<T>(x: T, t: seq<T>, key: T -> int)
    requires forall y :: y in multiset(t) ==> key(y) <= key(x)
    ensures Insert(x, t, key) == [x] + t
  {
    if t != [] {
      assert t[0] in multiset(t);
    }
  }

  /** An element whose key beats every other lands at the front, ahead of the others in their sorted order. */
  lemma {:induction false} SortDescNewestLast<T>(s: seq<T>, x: T, key: T -> int)
    requires forall y :: y in s ==> key(y) < key(x)
    ensures SortDesc(s + [x], key) == [x] + SortDesc(s, key)
  {
    if s == [] {
      SortDescCons(x, [], key);
      assert s + [x] == [x] + [];
    } else {
      var rest := s[1..];
      assert s == [s[0]] + rest;
      assert s + [x] == [s[0]] + (rest + [x]);
      assert forall y :: y in rest ==> y in s;
      SortDescNewestLast(rest, x, key);
      SortDescCons(s[0], rest + [x], key);
      SortDescCons(s[0], rest, key);
      InsertBehind(s[0], x, SortDesc(rest, key), key);
    }
  }

  /**
   * The first of the elements with the top key comes out first: in
   * `a + [x] + b`, with everything in `a` below `x` and nothing in `b`
   * above it, the sort starts with `x`.
   */
  lemma {:induction false} SortDescFirstOfTop<T>(a: seq<T>, x: T, b: seq<T>, key: T -> int)
    requires forall y :: y in a ==> key(y) < key(x)
    requires forall y :: y in b ==> key(y) <= key(x)
    ensures exists t :: SortDesc(a + ([x] + b), key) == [x] + t
  {
    if a == [] {
      assert a + ([x] + b) == [x] + b;
      SortDescCons(x, b, key);
      assert forall y :: y in multiset(SortDesc(b, key)) ==> y in b;
      InsertInFront(x, SortDesc(b, key), key);
    } else {
      var rest := a[1..];
      assert a + ([x] + b) == [a[0]] + (rest + ([x] + b));
      assert forall y :: y in rest ==> y in a;
      SortDescFirstOfTop(rest, x, b, key);
      var t :| SortDesc(rest + ([x] + b), key) == [x] + t;
      SortDescCons(a[0], rest + ([x] + b), key);
      InsertBehind(a[0], x, t, key);
    }
  }

  /** In a descending sequence nothing after position `n` beats anything before it. */
  lemma DescendingSplit<T>(s: seq<T>, key: T -> int, n: nat)
    requires Descending(s, key) && n <= |s|
    ensures forall x, y :: x in multiset(s[n..]) && y in s[..n] ==> key(y) >= key(x)
  {
    forall x, y | x in multiset(s[n..]) && y in s[..n] ensures key(y) >= key(x) {
      var j :| 0 <= j < |s[n..]| && s[n..][j] == x;
      var i :| 0 <= i < n && s[..n][i] == y;
      assert s[i] == y && s[n + j] == x;
    }
  }
}
