/**
 * Array.prototype.sort with a comparator, as the language has required it
 * since ECMAScript 2019: stable, and ordering by a consistent comparator.
 * `SortBy` is a stable insertion sort over a "sorts no later than" relation
 * `le`; with a total preorder its result is sorted, a permutation of the
 * input, keeps the input order among equivalent elements, and is the only
 * sequence with those three properties, so it is what any stable sort
 * returns for the same comparator.
 */
module Sorting {
  import opened Builtins

  ghost predicate TotalPreorder<T(!new)>(le: (T, T) -> bool) {
    && (forall a, b :: le(a, b) || le(b, a))
    && (forall a, b, c :: le(a, b) && le(b, c) ==> le(a, c))
  }

  ghost predicate Sorted<T>(le: (T, T) -> bool, s: seq<T>) {
    forall i, j :: 0 <= i < j < |s| ==> le(s[i], s[j])
  }

  /** The elements that compare equal to `k`. */
  function Equivalent<T>(le: (T, T) -> bool, k: T): T -> bool {
    x => le(x, k) && le(k, x)
  }

  /** Places `x` before the first element it sorts no later than. */
  function Insert<T>(le: (T, T) -> bool, x: T, s: seq<T>): (r: seq<T>)
    ensures multiset(r) == multiset(s) + multiset{x}
  {
    if s == [] then [x]
    else if le(x, s[0]) then [x] + s
    else
      assert s == [s[0]] + s[1..];
      [s[0]] + Insert(le, x, s[1..])
  }

  function SortBy<T>(le: (T, T) -> bool, s: seq<T>): (r: seq<T>)
    ensures multiset(r) == multiset(s)
  {
    if s == [] then []
    else
      assert s == [s[0]] + s[1..];
      Insert(le, s[0], SortBy(le, s[1..]))
  }

  lemma {:induction false} InsertSorted<T(!new)>(le: (T, T) -> bool, x: T, s: seq<T>)
    requires TotalPreorder(le) && Sorted(le, s)
    ensures Sorted(le, Insert(le, x, s))
  {
    if s != [] && !le(x, s[0]) {
      var rest := Insert(le, x, s[1..]);
      InsertSorted(le, x, s[1..]);
      forall k | 0 <= k < |rest| ensures le(s[0], rest[k]) {
        assert rest[k] in multiset(rest);
        if rest[k] != x {
          assert rest[k] in multiset(s[1..]);
          var j :| 0 <= j < |s[1..]| && s[1..][j] == rest[k];
          assert s[1..][j] == s[j + 1];
        }
      }
    }
  }

  /** The result of SortBy is ordered by `le`. */
  lemma {:induction false} SortBySorted<T(!new)>(le: (T, T) -> bool, s: seq<T>)
    requires TotalPreorder(le)
    ensures Sorted(le, SortBy(le, s))
  {
    if s != [] {
      SortBySorted(le, s[1..]);
      InsertSorted(le, s[0], SortBy(le, s[1..]));
    }
  }

  lemma {:induction false} InsertStable<T(!new)>(le: (T, T) -> bool, x: T, s: seq<T>, k: T)
    requires TotalPreorder(le)
    ensures Filter(Insert(le, x, s), Equivalent(le, k)) == Filter([x] + s, Equivalent(le, k))
  {
    var eq := Equivalent(le, k);
    if s != [] && !le(x, s[0]) {
      var y, rest := s[0], s[1..];
      // x and y are not equivalent, so at most one of them is kept.
      assert !(eq(x) && eq(y));
      calc {
        Filter(Insert(le, x, s), eq);
        Filter([y] + Insert(le, x, rest), eq);
        { FilterCons(y, Insert(le, x, rest), eq); }
        Filter([y], eq) + Filter(Insert(le, x, rest), eq);
        { InsertStable(le, x, rest, k); }
        Filter([y], eq) + Filter([x] + rest, eq);
        { FilterCons(x, rest, eq); }
        Filter([y], eq) + (Filter([x], eq) + Filter(rest, eq));
        { FilterCons(x, [], eq);
          FilterCons(y, [], eq);
          SwapWithEmpty(Filter([x], eq), Filter([y], eq), Filter(rest, eq)); }
        Filter([x], eq) + (Filter([y], eq) + Filter(rest, eq));
        { FilterCons(y, rest, eq); assert [y] + rest == s; }
        Filter([x], eq) + Filter(s, eq);
        { FilterCons(x, s, eq); }
        Filter([x] + s, eq);
      }
    }
  }

  /** Two sequences of which one is empty can trade places. */
  lemma SwapWithEmpty<T>(a: seq<T>, b: seq<T>, c: seq<T>)
    requires a == [] || b == []
    ensures b + (a + c) == a + (b + c)
  {
    if a == [] {
      assert a + c == c && a + (b + c) == b + c;
    } else {
      assert b + c == c && b + (a + c) == a + c;
    }
  }

  /** SortBy keeps the input order among elements that compare equal. */
  lemma {:induction false} SortByStable<T(!new)>(le: (T, T) -> bool, s: seq<T>, k: T)
    requires TotalPreorder(le)
    ensures Filter(SortBy(le, s), Equivalent(le, k)) == Filter(s, Equivalent(le, k))
  {
    if s != [] {
      var eq := Equivalent(le, k);
      var rest := SortBy(le, s[1..]);
      calc {
        Filter(SortBy(le, s), eq);
        Filter(Insert(le, s[0], rest), eq);
        { InsertStable(le, s[0], rest, k); }
        Filter([s[0]] + rest, eq);
        { FilterConcat([s[0]], rest, eq); }
        Filter([s[0]], eq) + Filter(rest, eq);
        { SortByStable(le, s[1..], k); }
        Filter([s[0]], eq) + Filter(s[1..], eq);
        { FilterConcat([s[0]], s[1..], eq); assert [s[0]] + s[1..] == s; }
        Filter(s, eq);
      }
    }
  }

  /** A comparator that finds every pair equal leaves the order unchanged. */
  lemma {:induction false} SortByAllEqual<T>(le: (T, T) -> bool, s: seq<T>)
    requires forall a, b :: le(a, b)
    ensures SortBy(le, s) == s
  {
    if s != [] {
      SortByAllEqual(le, s[1..]);
      assert [s[0]] + s[1..] == s;
    }
  }

  lemma FilterCons<T(!new)>(x: T, t: seq<T>, p: T -> bool)
    ensures Filter([x], p) == (if p(x) then [x] else [])
    ensures Filter([x] + t, p) == Filter([x], p) + Filter(t, p)
  {
    assert ([x] + t)[1..] == t;
    assert [x][1..] == [];
  }

  /** A sorted sequence starts with an element that sorts no later than any of its elements. */
  lemma SortedHead<T(!new)>(le: (T, T) -> bool, a: seq<T>, y: T)
    requires TotalPreorder(le) && Sorted(le, a) && y in a
    ensures le(a[0], y)
  {
    var i :| 0 <= i < |a| && a[i] == y;
    if i == 0 {
      assert le(y, y);
    }
  }

  lemma SameClassesSameHead<T(!new)>(le: (T, T) -> bool, a: seq<T>, b: seq<T>)
    requires TotalPreorder(le) && Sorted(le, a) && Sorted(le, b) && a != [] && b != []
    requires Filter(a, Equivalent(le, a[0])) == Filter(b, Equivalent(le, a[0]))
    requires Filter(a, Equivalent(le, b[0])) == Filter(b, Equivalent(le, b[0]))
    ensures a[0] == b[0]
  {
    var x, y := a[0], b[0];
    assert le(y, y);
    assert y in Filter(b, Equivalent(le, y));
    SortedHead(le, a, y);
    assert le(x, x);
    assert x in Filter(a, Equivalent(le, x));
    SortedHead(le, b, x);
    var eq := Equivalent(le, x);
    assert eq(x) && eq(y);
    assert a == [x] + a[1..] && b == [y] + b[1..];
    FilterCons(x, a[1..], eq);
    FilterCons(y, b[1..], eq);
    assert Filter(a, eq)[0] == x && Filter(b, eq)[0] == y;
  }

  lemma SortedTail<T>(le: (T, T) -> bool, a: seq<T>)
    requires Sorted(le, a) && a != []
    ensures Sorted(le, a[1..])
  {
    forall i, j | 0 <= i < j < |a[1..]| ensures le(a[1..][i], a[1..][j]) {
      assert a[1..][i] == a[i + 1] && a[1..][j] == a[j + 1];
    }
  }

  /** `a` and `b` hold the same elements of every equivalence class, in the same order. */
  ghost predicate SameClasses<T(!new)>(le: (T, T) -> bool, a: seq<T>, b: seq<T>) {
    forall k :: Filter(a, Equivalent(le, k)) == Filter(b, Equivalent(le, k))
  }

  lemma SameClassesEmpty<T(!new)>(le: (T, T) -> bool, a: seq<T>, b: seq<T>)
    requires TotalPreorder(le) && SameClasses(le, a, b)
    ensures a == [] <==> b == []
  {
    if a != [] {
      assert le(a[0], a[0]);
      assert a[0] in Filter(a, Equivalent(le, a[0]));
    }
    if b != [] {
      assert le(b[0], b[0]);
      assert b[0] in Filter(b, Equivalent(le, b[0]));
    }
  }

  lemma SameClassesTail<T(!new)>(le: (T, T) -> bool, a: seq<T>, b: seq<T>)
    requires a != [] && b != [] && a[0] == b[0] && SameClasses(le, a, b)
    ensures SameClasses(le, a[1..], b[1..])
  {
    var x := a[0];
    assert a == [x] + a[1..] && b == [x] + b[1..];
    forall k ensures Filter(a[1..], Equivalent(le, k)) == Filter(b[1..], Equivalent(le, k)) {
      var e := Equivalent(le, k);
      var pre := if e(x) then [x] else [];
      FilterCons(x, a[1..], e);
      FilterCons(x, b[1..], e);
      assert Filter(a, e) == Filter(b, e);
      assert Filter(a[1..], e) == Filter(a, e)[|pre|..];
      assert Filter(b[1..], e) == Filter(b, e)[|pre|..];
    }
  }

  /**
   * Two sequences that are both sorted and hold the same elements of every
   * equivalence class in the same order are equal.
   */
  lemma {:induction false} SortedStableUnique<T(!new)>(le: (T, T) -> bool, a: seq<T>, b: seq<T>)
    requires TotalPreorder(le) && Sorted(le, a) && Sorted(le, b) && SameClasses(le, a, b)
    ensures a == b
  {
    SameClassesEmpty(le, a, b);
    if a != [] {
      assert Filter(a, Equivalent(le, a[0])) == Filter(b, Equivalent(le, a[0]));
      assert Filter(a, Equivalent(le, b[0])) == Filter(b, Equivalent(le, b[0]));
      SameClassesSameHead(le, a, b);
      SameClassesTail(le, a, b);
      SortedTail(le, a);
      SortedTail(le, b);
      SortedStableUnique(le, a[1..], b[1..]);
      assert a == [a[0]] + a[1..] && b == [b[0]] + b[1..];
    }
  }

  /**
   * Every sorted sequence that keeps the order of `s` within each equivalence
   * class is SortBy's result: any stable sort with the same comparator agrees
   * with SortBy.
   */
  lemma SortByIsTheStableSort<T(!new)>(le: (T, T) -> bool, s: seq<T>, r: seq<T>)
    requires TotalPreorder(le) && Sorted(le, r) && SameClasses(le, r, s)
    ensures r == SortBy(le, s)
  {
    SortBySorted(le, s);
    forall k ensures Filter(r, Equivalent(le, k)) == Filter(SortBy(le, s), Equivalent(le, k)) {
      SortByStable(le, s, k);
    }
    SortedStableUnique(le, r, SortBy(le, s));
  }
}
