/** Shared vocabulary of the model: optional values, extended distances,
    Python's numeric conversions, and the list operations the pipeline
    performs on its records (filtering, removal by value, stable sorting,
    statistics.median). */
module Base {

  datatype Option<+T> = None | Some(value: T)

  /** A distance that may be Python's float('inf'). */
  datatype Dist = Fin(v: real) | Inf {
    /** The strict `<` of Python floats extended with +inf. */
    predicate Less(other: Dist) {
      match (this, other)
      case (Fin(a), Fin(b)) => a < b
      case (Fin(_), Inf) => true
      case (Inf, _) => false
    }
  }

  function Abs(x: real): real {
    if x < 0.0 then -x else x
  }

  function MinR(a: real, b: real): real {
    if a <= b then a else b
  }

  function MaxR(a: real, b: real): real {
    if a >= b then a else b
  }

  /** Python's `int(x)` on a float: truncation toward zero. */
  function Trunc(x: real): (r: int)
    ensures 0.0 <= x ==> r as real <= x < r as real + 1.0
    ensures x < 0.0 ==> r as real - 1.0 < x <= r as real
  {
    if x >= 0.0 then x.Floor else -((-x).Floor)
  }

  /** Python's built-in `round(x)`: nearest integer, ties to the even one. */
  function RoundHalfEven(x: real): (r: int)
    ensures x - 0.5 <= r as real <= x + 0.5
    ensures (r as real == x - 0.5 || r as real == x + 0.5) ==> r % 2 == 0
  {
    var f := x.Floor;
    var d := x - f as real;
    if d < 0.5 then f
    else if d > 0.5 then f + 1
    else if f % 2 == 0 then f
    else f + 1
  }

  /** The bound and the tie rule pin `round(x)` down: no other integer
      meets both. */
  lemma RoundHalfEvenUnique(x: real, n: int)
    requires x - 0.5 <= n as real <= x + 0.5
    requires (n as real == x - 0.5 || n as real == x + 0.5) ==> n % 2 == 0
    ensures n == RoundHalfEven(x)
  {
  }

  function Sum(s: seq<real>): real {
    if |s| == 0 then 0.0 else Sum(s[..|s| - 1]) + s[|s| - 1]
  }

  function CountWhere<T>(s: seq<T>, p: T -> bool): (n: nat)
    ensures n <= |s|
  {
    if |s| == 0 then 0
    else CountWhere(s[..|s| - 1], p) + (if p(s[|s| - 1]) then 1 else 0)
  }

  /** Counting from the front. */
  lemma {:induction false} CountWhereFront<T>(s: seq<T>, p: T -> bool)
    requires |s| > 0
    ensures CountWhere(s, p) == (if p(s[0]) then 1 else 0) + CountWhere(s[1..], p)
    decreases |s|
  {
    if |s| > 1 {
      CountWhereFront(s[..|s| - 1], p);
      assert s[..|s| - 1][1..] == s[1..][..|s| - 2];
    }
  }

  function Filter<T(!new)>(s: seq<T>, p: T -> bool): (r: seq<T>)
    ensures |r| <= |s|
    ensures forall x :: x in r <==> x in s && p(x)
  {
    if |s| == 0 then []
    else
      var rest := Filter(s[..|s| - 1], p);
      assert forall x :: x in s <==> x in s[..|s| - 1] || x == s[|s| - 1];
      if p(s[|s| - 1]) then rest + [s[|s| - 1]] else rest
  }

  /** Python's `list.remove(x)` when `x` is present: the first value-equal
      element goes. The pipeline only removes values it found in the list. */
  function RemoveFirst<T(==)>(s: seq<T>, x: T): (r: seq<T>)
    ensures x in s ==> |r| == |s| - 1 && multiset(r) == multiset(s) - multiset{x}
    ensures x !in s ==> r == s
  {
    if |s| == 0 then s
    else
      assert s == [s[0]] + s[1..];
      if s[0] == x then s[1..]
      else [s[0]] + RemoveFirst(s[1..], x)
  }

  /** Removes, one by one, each value of `need` (the `for b in need: l.remove(b)`
      loops of the source). */
  function RemoveAll<T(==)>(s: seq<T>, need: seq<T>): (r: seq<T>)
    ensures |r| <= |s|
    ensures multiset(r) <= multiset(s)
    decreases |need|
  {
    if |need| == 0 then s
    else RemoveAll(RemoveFirst(s, need[0]), need[1..])
  }

  lemma {:induction false} RemoveAllSkip<T>(x: T, t: seq<T>, need: seq<T>)
    requires x !in need
    ensures RemoveAll([x] + t, need) == [x] + RemoveAll(t, need)
    decreases |need|
  {
    if |need| > 0 {
      assert ([x] + t)[1..] == t;
      assert RemoveFirst([x] + t, need[0]) == [x] + RemoveFirst(t, need[0]);
      RemoveAllSkip(x, RemoveFirst(t, need[0]), need[1..]);
    }
  }

  /** Removing, by value, every element that satisfies `p` (the
      collect-then-`remove` idiom) leaves exactly the others, in order,
      whether or not the list holds duplicates. */
  lemma {:induction false} RemoveAllFiltered<T(!new)>(s: seq<T>, p: T -> bool, q: T -> bool)
    requires forall y :: q(y) == !p(y)
    ensures RemoveAll(s, Filter(s, p)) == Filter(s, q)
  {
    if |s| > 0 {
      var x, t := s[0], s[1..];
      assert s == [x] + t;
      FilterPrepend(x, t, p);
      FilterPrepend(x, t, q);
      RemoveAllFiltered(t, p, q);
      if p(x) {
        assert Filter(s, p) == [x] + Filter(t, p);
        RemoveAllFilteredHead(x, t, p);
        assert Filter(s, q) == Filter(t, q);
      } else {
        assert Filter(s, p) == Filter(t, p);
        assert x !in Filter(t, p);
        RemoveAllSkip(x, t, Filter(t, p));
        assert Filter(s, q) == [x] + Filter(t, q);
      }
    }
  }

  lemma RemoveAllFilteredHead<T(!new)>(x: T, t: seq<T>, p: T -> bool)
    requires p(x)
    requires Filter([x] + t, p) == [x] + Filter(t, p)
    ensures RemoveAll([x] + t, Filter([x] + t, p)) == RemoveAll(t, Filter(t, p))
  {
    var need := [x] + Filter(t, p);
    assert need[1..] == Filter(t, p);
    assert ([x] + t)[1..] == t;
    assert RemoveFirst([x] + t, x) == t;
  }

  predicate Distinct<T(==)>(s: seq<T>) {
    forall i, j :: 0 <= i < j < |s| ==> s[i] != s[j]
  }

  /** In a list without repeats, equal entries sit at the same position. */
  lemma DistinctAt<T>(s: seq<T>, i: int, j: int)
    requires Distinct(s) && 0 <= i < |s| && 0 <= j < |s| && s[i] == s[j]
    ensures i == j
  {
  }

  lemma {:induction false} RemoveFirstDistinct<T(!new)>(s: seq<T>, x: T)
    requires Distinct(s)
    ensures RemoveFirst(s, x) == Filter(s, y => y != x)
    ensures Distinct(RemoveFirst(s, x))
  {
    RemoveFirstIsFilter(s, x);
    FilterDistinct(s, y => y != x);
  }

  lemma {:induction false} RemoveFirstIsFilter<T(!new)>(s: seq<T>, x: T)
    requires Distinct(s)
    ensures RemoveFirst(s, x) == Filter(s, y => y != x)
  {
    if |s| > 0 {
      var h, t := s[0], s[1..];
      assert s == [h] + t;
      DistinctCons(h, t);
      RemoveFirstIsFilter(t, x);
      FilterPrepend(h, t, y => y != x);
      if h == x {
        FilterAllTrue(t, y => y != x);
      }
    }
  }

  lemma {:induction false} FilterPrepend<T(!new)>(x: T, s: seq<T>, p: T -> bool)
    ensures Filter([x] + s, p) == (if p(x) then [x] else []) + Filter(s, p)
    decreases |s|
  {
    var t := [x] + s;
    if |s| > 0 {
      var init, last := s[..|s| - 1], s[|s| - 1];
      var tail := if p(last) then [last] else [];
      assert t[..|t| - 1] == [x] + init;
      assert t[|t| - 1] == last;
      FilterPrepend(x, init, p);
      assert Filter(t, p) == Filter([x] + init, p) + tail;
      assert Filter(s, p) == Filter(init, p) + tail;
    }
  }

  lemma {:induction false} FilterAllTrue<T(!new)>(s: seq<T>, p: T -> bool)
    requires forall x :: x in s ==> p(x)
    ensures Filter(s, p) == s
  {
    if |s| > 0 {
      FilterAllTrue(s[..|s| - 1], p);
      assert s[..|s| - 1] + [s[|s| - 1]] == s;
    }
  }

  /** On a duplicate-free list, removing a duplicate-free batch of values by
      value is exactly filtering them out. */
  lemma {:induction false} RemoveAllDistinct<T(!new)>(s: seq<T>, need: seq<T>)
    requires Distinct(s)
    ensures RemoveAll(s, need) == Filter(s, y => y !in need)
    decreases |need|
  {
    if |need| == 0 {
      FilterAllTrue(s, y => y !in need);
    } else {
      var s' := RemoveFirst(s, need[0]);
      RemoveFirstDistinct(s, need[0]);
      RemoveAllDistinct(s', need[1..]);
      FilterFilter(s, y => y != need[0], y => y !in need[1..], y => y !in need);
    }
  }

  lemma {:induction false} FilterFilter<T(!new)>(s: seq<T>, p: T -> bool, q: T -> bool, pq: T -> bool)
    requires forall x :: pq(x) == (p(x) && q(x))
    ensures Filter(Filter(s, p), q) == Filter(s, pq)
  {
    if |s| > 0 {
      FilterFilter(s[..|s| - 1], p, q, pq);
      var last := s[|s| - 1];
      var r := Filter(s[..|s| - 1], p);
      if p(last) {
        assert Filter(s, p) == r + [last];
        assert (r + [last])[..|r|] == r;
      }
    }
  }

  // ---------------------------------------------------------------------
  // Stable sorting by a key (Python's `list.sort(key=...)` / `sorted`)
  // ---------------------------------------------------------------------

  predicate SortedBy<T>(s: seq<T>, key: T -> real) {
    forall i, j :: 0 <= i < j < |s| ==> key(s[i]) <= key(s[j])
  }

  /** Inserts `x` after every element whose key is not larger, which keeps
      equal keys in arrival order. */
  function InsertBy<T>(s: seq<T>, x: T, key: T -> real): seq<T> {
    if |s| == 0 then [x]
    else if key(s[|s| - 1]) <= key(x) then s + [x]
    else InsertBy(s[..|s| - 1], x, key) + [s[|s| - 1]]
  }

  lemma {:induction false} InsertByCount<T>(s: seq<T>, x: T, key: T -> real)
    ensures multiset(InsertBy(s, x, key)) == multiset(s) + multiset{x}
    ensures |InsertBy(s, x, key)| == |s| + 1
  {
    if |s| > 0 && key(s[|s| - 1]) > key(x) {
      assert s[..|s| - 1] + [s[|s| - 1]] == s;
      InsertByCount(s[..|s| - 1], x, key);
    }
  }

  lemma {:induction false} InsertBySorted<T>(s: seq<T>, x: T, key: T -> real)
    requires SortedBy(s, key)
    ensures SortedBy(InsertBy(s, x, key), key)
  {
    if |s| > 0 && key(s[|s| - 1]) > key(x) {
      var init := s[..|s| - 1];
      var last := s[|s| - 1];
      InsertBySorted(init, x, key);
      InsertByCount(init, x, key);
      var r' := InsertBy(init, x, key);
      forall i | 0 <= i < |r'| ensures key(r'[i]) <= key(last) {
        assert r'[i] in multiset(init) + multiset{x};
        if r'[i] != x {
          assert r'[i] in init;
        }
      }
    }
  }

  /** Insertion sort, the bare recursion; `SortBy` carries its contract. */
  function InsertionSort<T>(s: seq<T>, key: T -> real): seq<T> {
    if |s| == 0 then [] else InsertBy(InsertionSort(s[..|s| - 1], key), s[|s| - 1], key)
  }

  lemma {:induction false} InsertionSortSpec<T>(s: seq<T>, key: T -> real)
    ensures SortedBy(InsertionSort(s, key), key)
    ensures multiset(InsertionSort(s, key)) == multiset(s)
    ensures |InsertionSort(s, key)| == |s|
  {
    if |s| > 0 {
      assert s[..|s| - 1] + [s[|s| - 1]] == s;
      var init := InsertionSort(s[..|s| - 1], key);
      InsertionSortSpec(s[..|s| - 1], key);
      InsertBySorted(init, s[|s| - 1], key);
      InsertByCount(init, s[|s| - 1], key);
    }
  }

  /** The insertion sort Python's stable `sort` is observationally equal to. */
  function SortBy<T>(s: seq<T>, key: T -> real): (r: seq<T>)
    ensures SortedBy(r, key)
    ensures multiset(r) == multiset(s)
    ensures |r| == |s|
  {
    InsertionSortSpec(s, key);
    InsertionSort(s, key)
  }

  lemma {:induction false} InsertionSortSorted<T>(s: seq<T>, key: T -> real)
    requires SortedBy(s, key)
    ensures InsertionSort(s, key) == s
  {
    if |s| > 0 {
      InsertionSortSorted(s[..|s| - 1], key);
      assert s[..|s| - 1] + [s[|s| - 1]] == s;
    }
  }

  /** Sorting an already sorted list leaves it as it is. */
  lemma SortBySorted<T>(s: seq<T>, key: T -> real)
    requires SortedBy(s, key)
    ensures SortBy(s, key) == s
  {
    InsertionSortSorted(s, key);
  }

  /** The elements whose key is `v`. */
  function HasKey<T>(key: T -> real, v: real): T -> bool {
    (x: T) => key(x) == v
  }

  lemma FilterSnoc<T(!new)>(s: seq<T>, x: T, p: T -> bool)
    ensures Filter(s + [x], p) == Filter(s, p) + (if p(x) then [x] else [])
  {
    assert (s + [x])[..|s + [x]| - 1] == s;
  }

  /** At most one of two optional elements is present, so their order does
      not matter. */
  lemma SwapOptional<T>(f: seq<T>, x: T, y: T, px: bool, py: bool)
    requires !(px && py)
    ensures f + (if px then [x] else []) + (if py then [y] else [])
      == f + (if py then [y] else []) + (if px then [x] else [])
  {
  }

  /** Inserting keeps the elements of each key in arrival order, the new one
      after the old ones of its key. */
  lemma {:induction false} InsertByStable<T(!new)>(s: seq<T>, x: T, key: T -> real, v: real)
    ensures Filter(InsertBy(s, x, key), HasKey(key, v))
      == Filter(s, HasKey(key, v)) + (if key(x) == v then [x] else [])
  {
    if |s| == 0 || key(s[|s| - 1]) <= key(x) {
      InsertAtEnd(s, x, key, v);
    } else {
      InsertByStable(s[..|s| - 1], x, key, v);
      InsertBefore(s, x, key, v);
    }
  }

  /** The step of `InsertByStable` where `x` goes at the end. */
  lemma InsertAtEnd<T(!new)>(s: seq<T>, x: T, key: T -> real, v: real)
    requires |s| == 0 || key(s[|s| - 1]) <= key(x)
    ensures Filter(InsertBy(s, x, key), HasKey(key, v))
      == Filter(s, HasKey(key, v)) + (if key(x) == v then [x] else [])
  {
    assert HasKey(key, v)(x) == (key(x) == v);
    assert InsertBy(s, x, key) == s + [x];
    FilterSnoc(s, x, HasKey(key, v));
  }

  /** The step of `InsertByStable` where `x` goes before the last element. */
  lemma InsertBefore<T(!new)>(s: seq<T>, x: T, key: T -> real, v: real)
    requires |s| > 0 && key(s[|s| - 1]) > key(x)
    requires Filter(InsertBy(s[..|s| - 1], x, key), HasKey(key, v))
      == Filter(s[..|s| - 1], HasKey(key, v)) + (if key(x) == v then [x] else [])
    ensures Filter(InsertBy(s, x, key), HasKey(key, v))
      == Filter(s, HasKey(key, v)) + (if key(x) == v then [x] else [])
  {
    InsertByUnfold(s, x, key);
    InsertBeforeLast(s, x, key, v);
  }

  lemma InsertByUnfold<T>(s: seq<T>, x: T, key: T -> real)
    requires |s| > 0 && key(s[|s| - 1]) > key(x)
    ensures InsertBy(s, x, key) == InsertBy(s[..|s| - 1], x, key) + [s[|s| - 1]]
  {
  }

  lemma InsertBeforeLast<T(!new)>(s: seq<T>, x: T, key: T -> real, v: real)
    requires |s| > 0 && key(s[|s| - 1]) > key(x)
    requires Filter(InsertBy(s[..|s| - 1], x, key), HasKey(key, v))
      == Filter(s[..|s| - 1], HasKey(key, v)) + (if key(x) == v then [x] else [])
    ensures Filter(InsertBy(s[..|s| - 1], x, key) + [s[|s| - 1]], HasKey(key, v))
      == Filter(s, HasKey(key, v)) + (if key(x) == v then [x] else [])
  {
    var init, last := s[..|s| - 1], s[|s| - 1];
    var p := HasKey(key, v);
    assert p(x) == (key(x) == v) && p(last) == (key(last) == v);
    FilterSnoc(InsertBy(init, x, key), last, p);
    FilterSnoc(init, last, p);
    assert init + [last] == s;
    SwapOptional(Filter(init, p), x, last, p(x), p(last));
  }

  /** `SortBy` is stable like `list.sort`: the elements of each key keep
      their order in the input. */
  lemma {:induction false} SortByStable<T(!new)>(s: seq<T>, key: T -> real, v: real)
    ensures Filter(SortBy(s, key), HasKey(key, v)) == Filter(s, HasKey(key, v))
  {
    InsertionSortStable(s, key, v);
  }

  lemma {:induction false} InsertionSortStable<T(!new)>(s: seq<T>, key: T -> real, v: real)
    ensures Filter(InsertionSort(s, key), HasKey(key, v)) == Filter(s, HasKey(key, v))
  {
    if |s| > 0 {
      var init, last := s[..|s| - 1], s[|s| - 1];
      var p := HasKey(key, v);
      assert p(last) == (key(last) == v);
      assert InsertionSort(s, key) == InsertBy(InsertionSort(init, key), last, key);
      InsertionSortStable(init, key, v);
      InsertByStable(InsertionSort(init, key), last, key, v);
      assert init + [last] == s;
      FilterSnoc(init, last, p);
    }
  }


  function Id(x: real): real { x }

  /** Python's `statistics.median` (the mean of the two middle values for an
      even count); it raises on an empty list. */
  function Median(s: seq<real>): (m: real)
    requires |s| > 0
  {
    InsertionSortSpec(s, Id);
    MiddleOf(InsertionSort(s, Id))
  }

  /** The middle value of a list, the two middle values averaged for an
      even count. */
  function MiddleOf(t: seq<real>): real
    requires |t| > 0
  {
    var n := |t|;
    if n % 2 == 1 then t[n / 2] else (t[n / 2 - 1] + t[n / 2]) / 2.0
  }

  /** The last element of an ascending list is its largest. */
  lemma SortedLastMax(a: seq<real>, x: real)
    requires SortedBy(a, Id) && |a| > 0 && x in multiset(a)
    ensures x <= a[|a| - 1]
  {
    var j :| 0 <= j < |a| && a[j] == x;
    if j < |a| - 1 {
      assert Id(a[j]) <= Id(a[|a| - 1]);
    }
  }

  /** Equal multisets stay equal when the same last element is dropped. */
  lemma MultisetDropLast<T>(a: seq<T>, b: seq<T>)
    requires |a| > 0 && |b| > 0 && a[|a| - 1] == b[|b| - 1] && multiset(a) == multiset(b)
    ensures multiset(a[..|a| - 1]) == multiset(b[..|b| - 1])
  {
    var x := a[|a| - 1];
    var a', b' := a[..|a| - 1], b[..|b| - 1];
    assert a' + [x] == a && b' + [x] == b;
    assert multiset(a) == multiset(a') + multiset{x};
    assert multiset(b) == multiset(b') + multiset{x};
    forall y ensures multiset(a')[y] == multiset(b')[y] {
      assert (multiset(a') + multiset{x})[y] == (multiset(b') + multiset{x})[y];
    }
  }

  /** Two ascending lists with the same elements are the same list. */
  lemma {:induction false} SortedUnique(a: seq<real>, b: seq<real>)
    requires SortedBy(a, Id) && SortedBy(b, Id) && multiset(a) == multiset(b)
    ensures a == b
  {
    assert |a| == |multiset(a)| == |b|;
    if |a| > 0 {
      var n := |a| - 1;
      SortedLastEqual(a, b);
      MultisetDropLast(a, b);
      SortedInit(a);
      SortedInit(b);
      SortedUnique(a[..n], b[..n]);
      assert a == a[..n] + [a[n]] && b == b[..n] + [b[n]];
    }
  }

  /** Ascending lists with the same elements end with the same value. */
  lemma SortedLastEqual(a: seq<real>, b: seq<real>)
    requires SortedBy(a, Id) && SortedBy(b, Id) && multiset(a) == multiset(b) && |a| > 0
    ensures |b| == |a| && a[|a| - 1] == b[|b| - 1]
  {
    assert |a| == |multiset(a)| == |b|;
    var n := |a| - 1;
    assert a[n] in multiset(a) && b[n] in multiset(b);
    SortedLastMax(b, a[n]);
    SortedLastMax(a, b[n]);
  }

  lemma SortedInit(a: seq<real>)
    requires SortedBy(a, Id) && |a| > 0
    ensures SortedBy(a[..|a| - 1], Id)
  {
  }

  /** The median is the middle of any ascending arrangement of the values. */
  lemma MedianOfSorted(s: seq<real>, t: seq<real>)
    requires |s| > 0 && |t| > 0 && SortedBy(t, Id) && multiset(t) == multiset(s)
    ensures Median(s) == MiddleOf(t)
  {
    InsertionSortSpec(s, Id);
    SortedUnique(InsertionSort(s, Id), t);
  }

  /** `m` is the middle of every ascending arrangement of the values of `s`:
      what `statistics.median` promises, without naming a sort. */
  ghost predicate IsMedian(s: seq<real>, m: real) {
    forall t :: |t| == |s| > 0 && SortedBy(t, Id) && multiset(t) == multiset(s) ==> MiddleOf(t) == m
  }

  /** `Median` meets that description, and an ascending arrangement exists,
      so nothing else does. */
  lemma MedianIsMedian(s: seq<real>)
    requires |s| > 0
    ensures IsMedian(s, Median(s))
    ensures forall m :: IsMedian(s, m) ==> m == Median(s)
  {
    forall t | |t| == |s| > 0 && SortedBy(t, Id) && multiset(t) == multiset(s)
      ensures MiddleOf(t) == Median(s)
    {
      MedianOfSorted(s, t);
    }
    InsertionSortSpec(s, Id);
    var u := InsertionSort(s, Id);
    assert |u| == |s| && SortedBy(u, Id) && multiset(u) == multiset(s);
    assert MiddleOf(u) == Median(s);
  }

  /** The median lies between the smallest and largest value. */
  lemma MedianBounds(s: seq<real>)
    requires |s| > 0
    ensures exists j :: 0 <= j < |s| && s[j] <= Median(s)
    ensures exists j :: 0 <= j < |s| && Median(s) <= s[j]
  {
    InsertionSortSpec(s, Id);
    var t := InsertionSort(s, Id);
    var n := |t|;
    var lo := if n % 2 == 1 then n / 2 else n / 2 - 1;
    var hi := n / 2;
    assert Median(s) == MiddleOf(t);
    assert t[lo] <= Median(s) <= t[hi];
    assert t[lo] in multiset(s) by { assert t[lo] in multiset(t); }
    assert t[hi] in multiset(s) by { assert t[hi] in multiset(t); }
    var jl :| 0 <= jl < |s| && s[jl] == t[lo];
    var jh :| 0 <= jh < |s| && s[jh] == t[hi];
  }

  /** Keep the first of each group of equal elements. */
  function Dedup<T(==,!new)>(s: seq<T>): (r: seq<T>)
    ensures Distinct(r)
    ensures forall x :: x in r <==> x in s
  {
    if |s| == 0 then []
    else
      var prev := Dedup(s[..|s| - 1]);
      var x := s[|s| - 1];
      assert forall y :: y in s <==> y in s[..|s| - 1] || y == x;
      if x in prev then prev
      else
        var r := prev + [x];
        assert forall a, b :: 0 <= a < b < |r| ==> r[a] != r[b] by {
          forall a, b | 0 <= a < b < |r| ensures r[a] != r[b] {
            if b == |prev| { assert r[a] in prev; }
          }
        }
        r
  }


  /** Append `x` unless it is already present (`if x not in need: need.append(x)`). */
  function AddOnce<T(==)>(need: seq<T>, x: Option<T>): seq<T> {
    if x.Some? && x.value !in need then need + [x.value] else need
  }

  /** A double loop over all ordered pairs of `s` collecting, without
      repetition, the element `pick` condemns for each pair: the state after
      rows `0..i-1` and then columns `0..j-1` of row `i`. */
  function PairRow<T(==)>(s: seq<T>, pick: (T, T) -> Option<T>, i: nat, j: nat, need: seq<T>): seq<T>
    requires i < |s| && j <= |s|
  {
    if j == 0 then need
    else AddOnce(PairRow(s, pick, i, j - 1, need), pick(s[i], s[j - 1]))
  }

  function PairNeed<T(==)>(s: seq<T>, pick: (T, T) -> Option<T>, i: nat): seq<T>
    requires i <= |s|
  {
    if i == 0 then []
    else PairRow(s, pick, i - 1, |s|, PairNeed(s, pick, i - 1))
  }

  predicate Picked<T(==)>(s: seq<T>, pick: (T, T) -> Option<T>, i: nat, x: T)
    requires i <= |s|
  {
    exists a, k :: 0 <= a < i && 0 <= k < |s| && pick(s[a], s[k]) == Some(x)
  }

  lemma {:induction false} PairRowMembers<T>(s: seq<T>, pick: (T, T) -> Option<T>, i: nat, j: nat, need: seq<T>, x: T)
    requires i < |s| && j <= |s|
    ensures x in PairRow(s, pick, i, j, need) <==>
      x in need || exists k :: 0 <= k < j && pick(s[i], s[k]) == Some(x)
  {
    if j > 0 {
      PairRowMembers(s, pick, i, j - 1, need, x);
    }
  }

  lemma {:induction false} PairRowDistinct<T>(s: seq<T>, pick: (T, T) -> Option<T>, i: nat, j: nat, need: seq<T>)
    requires i < |s| && j <= |s| && Distinct(need)
    ensures Distinct(PairRow(s, pick, i, j, need))
  {
    if j > 0 {
      PairRowDistinct(s, pick, i, j - 1, need);
      var prev := PairRow(s, pick, i, j - 1, need);
      var p := pick(s[i], s[j - 1]);
      if p.Some? && p.value !in prev {
        var next := prev + [p.value];
        forall a, b | 0 <= a < b < |next| ensures next[a] != next[b] {
          if b == |prev| { assert next[a] in prev; }
        }
      }
    }
  }

  /** The collected list holds exactly the condemned elements, once each. */
  lemma PairNeedMembers<T>(s: seq<T>, pick: (T, T) -> Option<T>, i: nat, x: T)
    requires i <= |s|
    ensures x in PairNeed(s, pick, i) <==> Picked(s, pick, i, x)
    ensures Distinct(PairNeed(s, pick, i))
  {
    PairNeedIn(s, pick, i, x);
    PairNeedDistinct(s, pick, i);
  }

  /** Removing by value what the double loop collects takes away one copy
      of each condemned value, whatever the repetitions in `s`, as long as
      `pick` only ever condemns one of the pair. */
  lemma PairNeedCounts<T(!new)>(s: seq<T>, pick: (T, T) -> Option<T>)
    requires forall a: T, b: T :: pick(a, b).Some? ==> pick(a, b).value == a || pick(a, b).value == b
    ensures forall x :: (multiset(RemoveAll(s, PairNeed(s, pick, |s|)))[x]
                         == multiset(s)[x] - (if Picked(s, pick, |s|, x) then 1 else 0))
  {
    var need := PairNeed(s, pick, |s|);
    forall x | x in need ensures x in s {
      PairNeedMembers(s, pick, |s|, x);
      var a, k :| 0 <= a < |s| && 0 <= k < |s| && pick(s[a], s[k]) == Some(x);
      assert x == s[a] || x == s[k];
    }
    PairNeedDistinct(s, pick, |s|);
    RemoveAllCounts(s, need);
    forall x ensures x in need <==> Picked(s, pick, |s|, x) {
      PairNeedMembers(s, pick, |s|, x);
    }
  }

  lemma {:induction false} PairNeedIn<T>(s: seq<T>, pick: (T, T) -> Option<T>, i: nat, x: T)
    requires i <= |s|
    ensures x in PairNeed(s, pick, i) <==> Picked(s, pick, i, x)
  {
    if i > 0 {
      var prev := PairNeed(s, pick, i - 1);
      PairNeedIn(s, pick, i - 1, x);
      PairRowMembers(s, pick, i - 1, |s|, prev, x);
      PickedStep(s, pick, i, x);
    }
  }

  lemma {:induction false} PairNeedDistinct<T>(s: seq<T>, pick: (T, T) -> Option<T>, i: nat)
    requires i <= |s|
    ensures Distinct(PairNeed(s, pick, i))
  {
    if i > 0 {
      var prev := PairNeed(s, pick, i - 1);
      PairNeedDistinct(s, pick, i - 1);
      PairRowDistinct(s, pick, i - 1, |s|, prev);
    }
  }

  /** Condemned by the first `i` rows: by the first `i - 1`, or by row `i - 1`. */
  lemma PickedStep<T>(s: seq<T>, pick: (T, T) -> Option<T>, i: nat, x: T)
    requires 0 < i <= |s|
    ensures Picked(s, pick, i, x) <==>
      Picked(s, pick, i - 1, x) || exists k :: 0 <= k < |s| && pick(s[i - 1], s[k]) == Some(x)
  {
    if Picked(s, pick, i, x) {
      var a, k :| 0 <= a < i && 0 <= k < |s| && pick(s[a], s[k]) == Some(x);
      if a < i - 1 {
        assert Picked(s, pick, i - 1, x);
      }
    }
    if exists k :: 0 <= k < |s| && pick(s[i - 1], s[k]) == Some(x) {
      var k :| 0 <= k < |s| && pick(s[i - 1], s[k]) == Some(x);
      assert Picked(s, pick, i, x);
    }
  }

  lemma DistinctCons<T>(h: T, t: seq<T>)
    ensures Distinct([h] + t) <==> h !in t && Distinct(t)
  {
    var s := [h] + t;
    if h !in t && Distinct(t) {
      forall i, j | 0 <= i < j < |s| ensures s[i] != s[j] {
        if i == 0 { assert s[j] == t[j - 1]; } else { assert s[i] == t[i - 1] && s[j] == t[j - 1]; }
      }
    }
    if Distinct(s) {
      forall k | 0 <= k < |t| ensures t[k] != h {
        assert s[0] == h && s[k + 1] == t[k];
        assert s[0] != s[k + 1];
      }
      forall i, j | 0 <= i < j < |t| ensures t[i] != t[j] {
        assert t[i] == s[i + 1] && t[j] == s[j + 1];
      }
    }
  }

  /** A sequence is duplicate-free exactly when no element occurs twice in
      its multiset. */
  lemma {:induction false} DistinctCounts<T>(s: seq<T>)
    ensures Distinct(s) <==> forall x :: multiset(s)[x] <= 1
  {
    if |s| > 0 {
      var h, t := s[0], s[1..];
      assert s == [h] + t;
      DistinctCons(h, t);
      DistinctCounts(t);
      assert forall x :: multiset(s)[x] == multiset(t)[x] + (if x == h then 1 else 0);
    }
  }

  /** Reordering keeps a sequence duplicate-free. */
  lemma DistinctPermutation<T>(a: seq<T>, b: seq<T>)
    requires multiset(a) == multiset(b)
    requires Distinct(a)
    ensures Distinct(b)
  {
    DistinctCounts(a);
    DistinctCounts(b);
  }

  lemma {:induction false} FilterCongruent<T(!new)>(s: seq<T>, p: T -> bool, q: T -> bool)
    requires forall x :: x in s ==> p(x) == q(x)
    ensures Filter(s, p) == Filter(s, q)
  {
    if |s| > 0 {
      FilterCongruent(s[..|s| - 1], p, q);
      assert s[|s| - 1] in s;
    }
  }

  lemma {:induction false} FilterDistinct<T(!new)>(s: seq<T>, p: T -> bool)
    requires Distinct(s)
    ensures Distinct(Filter(s, p))
  {
    if |s| > 0 {
      var init := s[..|s| - 1];
      var x := s[|s| - 1];
      assert Distinct(init);
      FilterDistinct(init, p);
      if p(x) {
        var rest := Filter(init, p);
        assert x !in init by {
          forall k | 0 <= k < |init| ensures init[k] != x { assert s[k] == init[k]; }
        }
        DistinctCons(x, rest);
        DistinctPermutation([x] + rest, rest + [x]);
      }
    }
  }

  lemma {:induction false} DedupDistinct<T(!new)>(s: seq<T>)
    requires Distinct(s)
    ensures Dedup(s) == s
  {
    if |s| > 0 {
      var init := s[..|s| - 1];
      assert Distinct(init);
      DedupDistinct(init);
      assert s[|s| - 1] !in init by {
        forall k | 0 <= k < |init| ensures init[k] != s[|s| - 1] { assert s[k] == init[k]; }
      }
      assert init + [s[|s| - 1]] == s;
    }
  }

  /** On a duplicate-free list, collecting the condemned elements over all
      pairs and removing them by value keeps exactly the others, in order. */
  lemma RemovePickedDistinct<T(!new)>(s: seq<T>, pick: (T, T) -> Option<T>)
    requires Distinct(s)
    ensures RemoveAll(s, PairNeed(s, pick, |s|)) == Filter(s, y => !Picked(s, pick, |s|, y))
  {
    var need := PairNeed(s, pick, |s|);
    RemoveAllDistinct(s, need);
    forall x | x in s ensures (x !in need) == !Picked(s, pick, |s|, x) {
      PairNeedMembers(s, pick, |s|, x);
    }
    FilterCongruent(s, y => y !in need, y => !Picked(s, pick, |s|, y));
  }

  /** Removing by value a batch of values the list holds (with
      multiplicity) removes exactly that batch. */
  lemma MultisetTake<T>(x: T, rest: multiset<T>, s: multiset<T>, s': multiset<T>, r: multiset<T>)
    requires multiset{x} + rest <= s
    requires s' == s - multiset{x}
    ensures rest <= s'
    ensures r == s' - rest ==> r == s - (multiset{x} + rest)
  {
  }

  lemma {:induction false} RemoveAllPresent<T>(s: seq<T>, need: seq<T>)
    requires multiset(need) <= multiset(s)
    ensures multiset(RemoveAll(s, need)) == multiset(s) - multiset(need)
    ensures |RemoveAll(s, need)| == |s| - |need|
    decreases |need|
  {
    if |need| > 0 {
      var x, rest := need[0], need[1..];
      MultisetHead(need);
      var s' := RemoveFirst(s, x);
      var r := RemoveAll(s', rest);
      MultisetTake(x, multiset(rest), multiset(s), multiset(s'), multiset(r));
      RemoveAllPresent(s', rest);
    }
  }

  /** When `need` is duplicate-free and drawn from `s`, removing it by value
      takes one copy of each of its values and leaves the other copies. */
  lemma RemoveAllCounts<T>(s: seq<T>, need: seq<T>)
    requires Distinct(need) && forall x :: x in need ==> x in s
    ensures forall x :: multiset(RemoveAll(s, need))[x] == multiset(s)[x] - (if x in need then 1 else 0)
  {
    DistinctSubMultiset(need, s);
    RemoveAllPresent(s, need);
    DistinctCounts(need);
    forall x ensures multiset(need)[x] == (if x in need then 1 else 0) {
      if x in need {
        assert x in multiset(need);
      }
    }
  }

  /** The elements of `s` at positions `ps`, in the order of `ps`. */
  function At<T>(s: seq<T>, ps: seq<nat>): (r: seq<T>)
    requires forall k :: 0 <= k < |ps| ==> ps[k] < |s|
    ensures |r| == |ps| && forall k :: 0 <= k < |ps| ==> r[k] == s[ps[k]]
  {
    seq(|ps|, k requires 0 <= k < |ps| => s[ps[k]])
  }

  lemma AtSplit<T>(s: seq<T>, ps: seq<nat>, j: nat)
    requires forall k :: 0 <= k < |ps| ==> ps[k] < |s|
    requires j < |ps|
    ensures multiset(At(s, ps)) == multiset(At(s, ps[..j] + ps[j + 1..])) + multiset{s[ps[j]]}
  {
    var q := ps[..j] + ps[j + 1..];
    assert At(s, ps) == At(s, ps[..j]) + [s[ps[j]]] + At(s, ps[j + 1..]);
    assert At(s, q) == At(s, ps[..j]) + At(s, ps[j + 1..]);
  }

  lemma AtPrefix<T>(s: seq<T>, ps: seq<nat>, n: nat)
    requires n <= |s| && forall k :: 0 <= k < |ps| ==> ps[k] < n
    ensures At(s, ps) == At(s[..n], ps)
  {
  }

  lemma DropDistinct(ps: seq<nat>, j: nat)
    requires Distinct(ps) && j < |ps|
    ensures Distinct(ps[..j] + ps[j + 1..])
    ensures forall x :: x in ps[..j] + ps[j + 1..] ==> x in ps && x != ps[j]
  {
    var q := ps[..j] + ps[j + 1..];
    assert forall k :: 0 <= k < |q| ==> q[k] == if k < j then ps[k] else ps[k + 1];
  }

  /** Elements at distinct positions occur in the list at least that often. */
  lemma {:induction false} AtSubMultiset<T>(s: seq<T>, ps: seq<nat>)
    requires Distinct(ps) && forall k :: 0 <= k < |ps| ==> ps[k] < |s|
    ensures multiset(At(s, ps)) <= multiset(s)
    decreases |s|
  {
    if |s| > 0 {
      var n := |s| - 1;
      var init := s[..n];
      assert s == init + [s[n]];
      if n in ps {
        var j :| 0 <= j < |ps| && ps[j] == n;
        var q := ps[..j] + ps[j + 1..];
        DropDistinct(ps, j);
        AtSplit(s, ps, j);
        assert forall k :: 0 <= k < |q| ==> q[k] < n by {
          forall k | 0 <= k < |q| ensures q[k] < n {
            assert q[k] in q;
          }
        }
        AtPrefix(s, q, n);
        AtSubMultiset(init, q);
      } else {
        assert forall k :: 0 <= k < |ps| ==> ps[k] < n by {
          forall k | 0 <= k < |ps| ensures ps[k] < n {
            assert ps[k] in ps;
          }
        }
        AtPrefix(s, ps, n);
        AtSubMultiset(init, ps);
      }
    }
  }

  lemma MultisetHead<T>(s: seq<T>)
    requires |s| > 0
    ensures multiset(s) == multiset{s[0]} + multiset(s[1..])
  {
    assert s == [s[0]] + s[1..];
  }

  /** Every element of a duplicate-free list drawn from `s` occurs in `s`
      at least as often as in the list. */
  lemma DistinctSubMultiset<T>(d: seq<T>, s: seq<T>)
    requires Distinct(d)
    requires forall x :: x in d ==> x in s
    ensures multiset(d) <= multiset(s)
  {
    DistinctCounts(d);
    forall x ensures multiset(d)[x] <= multiset(s)[x] {
      if x in d { assert x in multiset(s); }
    }
  }

  /** One pair of a double loop that skips a pair of equal elements or of
      elements already collected, and otherwise collects (once) the element
      `choose` condemns. */
  function GuardedStep<T(==)>(a: T, b: T, choose: (T, T) -> Option<T>, need: seq<T>): seq<T> {
    if a == b || a in need || b in need then need else AddOnce(need, choose(a, b))
  }

  /** The state after rows `0..i-1` and columns `0..j-1` of row `i`. */
  function GuardedRow<T(==)>(s: seq<T>, choose: (T, T) -> Option<T>, i: nat, j: nat, need: seq<T>): seq<T>
    requires i < |s| && j <= |s|
  {
    if j == 0 then need
    else GuardedStep(s[i], s[j - 1], choose, GuardedRow(s, choose, i, j - 1, need))
  }

  function GuardedNeed<T(==)>(s: seq<T>, choose: (T, T) -> Option<T>, i: nat): seq<T>
    requires i <= |s|
  {
    if i == 0 then [] else GuardedRow(s, choose, i - 1, |s|, GuardedNeed(s, choose, i - 1))
  }

  /** Collected elements stay collected along a row. */
  lemma {:induction false} GuardedRowGrows<T>(s: seq<T>, choose: (T, T) -> Option<T>, i: nat, j: nat, k: nat, need: seq<T>, x: T)
    requires i < |s| && j <= k <= |s|
    requires x in GuardedRow(s, choose, i, j, need)
    ensures x in GuardedRow(s, choose, i, k, need)
    decreases k
  {
    if k > j {
      GuardedRowGrows(s, choose, i, j, k - 1, need, x);
    }
  }

  /** Collected elements stay collected from row to row. */
  lemma {:induction false} GuardedNeedGrows<T>(s: seq<T>, choose: (T, T) -> Option<T>, i: nat, k: nat, x: T)
    requires i <= k <= |s|
    requires x in GuardedNeed(s, choose, i)
    ensures x in GuardedNeed(s, choose, k)
    decreases k
  {
    if k > i {
      GuardedNeedGrows(s, choose, i, k - 1, x);
      GuardedRowGrows(s, choose, k - 1, 0, |s|, GuardedNeed(s, choose, k - 1), x);
    }
  }

  lemma {:induction false} GuardedRowMembers<T>(s: seq<T>, choose: (T, T) -> Option<T>, i: nat, j: nat, need: seq<T>, x: T)
    requires i < |s| && j <= |s|
    ensures x in GuardedRow(s, choose, i, j, need) ==>
      x in need || exists k :: 0 <= k < j && s[i] != s[k] && choose(s[i], s[k]) == Some(x)
    ensures Distinct(need) ==> Distinct(GuardedRow(s, choose, i, j, need))
  {
    if j > 0 {
      GuardedRowMembers(s, choose, i, j - 1, need, x);
      var prev := GuardedRow(s, choose, i, j - 1, need);
      var p := choose(s[i], s[j - 1]);
      if Distinct(prev) && GuardedStep(s[i], s[j - 1], choose, prev) != prev {
        var next := prev + [p.value];
        forall a, b | 0 <= a < b < |next| ensures next[a] != next[b] {
          if b == |prev| { assert next[a] in prev; }
        }
      }
    }
  }

  /** Everything collected was condemned by `choose` for some pair, once. */
  lemma {:induction false} GuardedNeedMembers<T>(s: seq<T>, choose: (T, T) -> Option<T>, i: nat, x: T)
    requires i <= |s|
    ensures x in GuardedNeed(s, choose, i) ==>
      exists a, k :: 0 <= a < i && 0 <= k < |s| && s[a] != s[k] && choose(s[a], s[k]) == Some(x)
    ensures Distinct(GuardedNeed(s, choose, i))
  {
    if i > 0 {
      var prev := GuardedNeed(s, choose, i - 1);
      GuardedNeedMembers(s, choose, i - 1, x);
      GuardedRowMembers(s, choose, i - 1, |s|, prev, x);
    }
  }

  /** A pair of distinct elements that both escape collection was never
      condemned, or what `choose` condemned for it was collected. */
  lemma GuardedNeedCloses<T>(s: seq<T>, choose: (T, T) -> Option<T>, p: nat, q: nat)
    requires p < |s| && q < |s|
    requires s[p] != s[q]
    requires s[p] !in GuardedNeed(s, choose, |s|) && s[q] !in GuardedNeed(s, choose, |s|)
    requires choose(s[p], s[q]).Some?
    ensures choose(s[p], s[q]).value in GuardedNeed(s, choose, |s|)
  {
    var base := GuardedNeed(s, choose, p);
    var d0 := GuardedRow(s, choose, p, q, base);
    var d1 := GuardedRow(s, choose, p, q + 1, base);
    var c := choose(s[p], s[q]).value;
    if s[p] in d0 {
      GuardedRowGrows(s, choose, p, q, |s|, base, s[p]);
      GuardedNeedGrows(s, choose, p + 1, |s|, s[p]);
    }
    if s[q] in d0 {
      GuardedRowGrows(s, choose, p, q, |s|, base, s[q]);
      GuardedNeedGrows(s, choose, p + 1, |s|, s[q]);
    }
    assert c in d1;
    GuardedRowGrows(s, choose, p, q + 1, |s|, base, c);
    GuardedNeedGrows(s, choose, p + 1, |s|, c);
  }

  /** Concatenation of a list of lists. */
  function Flatten<T>(ss: seq<seq<T>>): seq<T> {
    if |ss| == 0 then [] else Flatten(ss[..|ss| - 1]) + ss[|ss| - 1]
  }

  lemma FlattenSnoc<T>(ss: seq<seq<T>>, x: seq<T>)
    ensures Flatten(ss + [x]) == Flatten(ss) + x
  {
    assert (ss + [x])[..|ss|] == ss;
  }

  lemma {:induction false} FlattenConcat<T>(a: seq<seq<T>>, b: seq<seq<T>>)
    ensures Flatten(a + b) == Flatten(a) + Flatten(b)
  {
    if |b| > 0 {
      assert (a + b)[..|a + b| - 1] == a + b[..|b| - 1];
      FlattenConcat(a, b[..|b| - 1]);
    } else {
      assert a + b == a;
    }
  }

  /** The run of list `i` inside the concatenation. */
  lemma FlattenAround<T>(ss: seq<seq<T>>, i: nat)
    requires i < |ss|
    ensures Flatten(ss) == Flatten(ss[..i]) + ss[i] + Flatten(ss[i + 1..])
  {
    FlattenTake(ss, i);
    SplitAt(ss, i + 1);
    FlattenConcat(ss[..i + 1], ss[i + 1..]);
  }

  lemma SplitAt<T>(s: seq<T>, i: nat)
    requires i <= |s|
    ensures s[..i] + s[i..] == s
  {
  }

  lemma FlattenTake<T>(ss: seq<seq<T>>, i: nat)
    requires i < |ss|
    ensures Flatten(ss[..i + 1]) == Flatten(ss[..i]) + ss[i]
  {
    assert ss[..i + 1][..i] == ss[..i];
  }

  /** Where position `k` of the concatenation comes from, relative to list `i`. */
  lemma FlattenPick<T>(ss: seq<seq<T>>, i: nat, k: nat)
    requires i < |ss| && k < |Flatten(ss)|
    ensures var lo := |Flatten(ss[..i])|;
      |Flatten(ss)| == lo + |ss[i]| + |Flatten(ss[i + 1..])|
      && (k < lo ==> Flatten(ss)[k] == Flatten(ss[..i])[k])
      && (lo <= k < lo + |ss[i]| ==> Flatten(ss)[k] == ss[i][k - lo])
      && (lo + |ss[i]| <= k ==> Flatten(ss)[k] == Flatten(ss[i + 1..])[k - lo - |ss[i]|])
  {
    FlattenAround(ss, i);
  }

  /** Every element of the concatenation comes from one of the lists. */
  lemma {:induction false} FlattenFrom<T>(ss: seq<seq<T>>, j: nat)
    requires j < |Flatten(ss)|
    ensures exists q :: 0 <= q < |ss| && Flatten(ss)[j] in ss[q]
  {
    var init := ss[..|ss| - 1];
    if j < |Flatten(init)| {
      FlattenFrom(init, j);
      var q :| 0 <= q < |init| && Flatten(init)[j] in init[q];
      assert ss[q] == init[q];
    } else {
      assert Flatten(ss)[j] == ss[|ss| - 1][j - |Flatten(init)|];
    }
  }

  /** An element of the concatenation sits at some position of some list. */
  lemma {:induction false} FlattenHas<T>(ss: seq<seq<T>>, x: T)
    ensures x in Flatten(ss) ==> exists h, c :: 0 <= h < |ss| && 0 <= c < |ss[h]| && ss[h][c] == x
  {
    if |ss| > 0 && x in Flatten(ss) {
      var init := ss[..|ss| - 1];
      FlattenHas(init, x);
      if x in Flatten(init) {
        var h, c :| 0 <= h < |init| && 0 <= c < |init[h]| && init[h][c] == x;
        assert ss[h] == init[h];
      } else {
        var c :| 0 <= c < |ss[|ss| - 1]| && ss[|ss| - 1][c] == x;
      }
    }
  }

  /** Empty lists concatenate to the empty list. */
  lemma {:induction false} FlattenEmpty<T>(ss: seq<seq<T>>)
    requires forall k :: 0 <= k < |ss| ==> ss[k] == []
    ensures Flatten(ss) == []
  {
    if |ss| > 0 {
      FlattenEmpty(ss[..|ss| - 1]);
    }
  }

  /** Empty lists from `lo` up to `m` add nothing to the concatenation of
      the lists from `lo` on. */
  lemma FlattenSkip<T>(ss: seq<seq<T>>, lo: nat, m: nat)
    requires lo <= m < |ss| && forall k :: lo <= k < m ==> ss[k] == []
    ensures Flatten(ss[lo..]) == ss[m] + Flatten(ss[m + 1..])
  {
    var t := ss[lo..];
    FlattenAround(t, m - lo);
    FlattenEmpty(t[..m - lo]);
    assert t[m - lo + 1..] == ss[m + 1..];
  }

  /** Two lists of lists that agree from `j` on. */
  lemma SameFrom<T>(xs: seq<seq<T>>, ys: seq<seq<T>>, j: nat)
    requires j <= |xs| == |ys| && forall k :: j <= k < |xs| ==> ys[k] == xs[k]
    ensures xs[j..] == ys[j..]
  {
  }

  /** Two lists of lists that agree below `i`. */
  lemma SameBelow<T>(xs: seq<seq<T>>, ys: seq<seq<T>>, i: nat)
    requires i <= |xs| == |ys| && forall k :: 0 <= k < i ==> ys[k] == xs[k]
    ensures xs[..i] == ys[..i]
  {
  }

  /** Moving list `j` onto the end of list `i < j` leaves the concatenation
      unchanged when every list between them is empty. */
  lemma FlattenGather<T>(xs: seq<seq<T>>, ys: seq<seq<T>>, i: nat, j: nat)
    requires i < j < |xs| == |ys|
    requires ys[i] == xs[i] + xs[j] && ys[j] == []
    requires forall k :: i < k < j ==> xs[k] == [] && ys[k] == []
    requires forall k :: 0 <= k < |xs| && k != i && k != j ==> ys[k] == xs[k]
    ensures Flatten(ys) == Flatten(xs)
  {
    FlattenAround(xs, i);
    FlattenAround(ys, i);
    SameBelow(xs, ys, i);
    FlattenSkip(xs, i + 1, j);
    FlattenSkip(ys, i + 1, j);
    SameFrom(xs, ys, j + 1);
    var p := Flatten(xs[..i]);
    var r := Flatten(xs[j + 1..]);
    assert Flatten(xs) == p + xs[i] + (xs[j] + r);
    assert Flatten(ys) == p + (xs[i] + xs[j]) + ([] + r);
    Regroup(p, xs[i], xs[j], r);
  }

  lemma Regroup<T>(p: seq<T>, a: seq<T>, b: seq<T>, r: seq<T>)
    ensures p + (a + b) + ([] + r) == p + a + (b + r)
  {
    assert [] + r == r;
  }

  lemma LastSplit<T>(s: seq<T>)
    requires |s| > 0
    ensures s == s[..|s| - 1] + [s[|s| - 1]]
  {
  }

  /** Applies `f` to every element, front to back. */
  function Map<T, U>(s: seq<T>, f: T -> U): (r: seq<U>)
    ensures |r| == |s|
    ensures forall k :: 0 <= k < |s| ==> r[k] == f(s[k])
  {
    if |s| == 0 then [] else [f(s[0])] + Map(s[1..], f)
  }

  lemma {:induction false} MapRemoveFirst<T, U>(b: seq<T>, x: T, f: T -> U)
    requires x in b
    ensures multiset(Map(b, f)) == multiset(Map(RemoveFirst(b, x), f)) + multiset{f(x)}
  {
    var h, t := b[0], b[1..];
    MapCons(b, f);
    if h != x {
      assert x in t by { assert b == [h] + t; }
      MapRemoveFirst(t, x, f);
      var r := RemoveFirst(t, x);
      assert RemoveFirst(b, x) == [h] + r;
      MapCons([h] + r, f);
      assert ([h] + r)[1..] == r;
    }
  }

  lemma MapCons<T, U>(s: seq<T>, f: T -> U)
    requires |s| > 0
    ensures Map(s, f) == [f(s[0])] + Map(s[1..], f)
  {
  }

  /** Mapping preserves taking a sub-multiset. */
  lemma {:induction false} MapSubMultiset<T, U>(a: seq<T>, b: seq<T>, f: T -> U)
    requires multiset(a) <= multiset(b)
    ensures multiset(Map(a, f)) <= multiset(Map(b, f))
    decreases |a|
  {
    if |a| > 0 {
      var h, t := a[0], a[1..];
      assert a == [h] + t;
      assert h in multiset(b);
      var b' := RemoveFirst(b, h);
      assert multiset(t) <= multiset(b');
      MapSubMultiset(t, b', f);
      MapRemoveFirst(b, h, f);
    }
  }

  /** How many copies of `x` a filter keeps. */
  lemma {:induction false} FilterCount<T(!new)>(s: seq<T>, p: T -> bool, x: T)
    ensures multiset(Filter(s, p))[x] == if p(x) then multiset(s)[x] else 0
  {
    if |s| > 0 {
      LastSplit(s);
      FilterCount(s[..|s| - 1], p, x);
    }
  }

  /** A filter that rejects an element of the list is strictly shorter. */
  lemma {:induction false} FilterMisses<T(!new)>(s: seq<T>, p: T -> bool, x: T)
    requires x in s && !p(x)
    ensures |Filter(s, p)| < |s|
  {
    LastSplit(s);
    if s[|s| - 1] != x {
      FilterMisses(s[..|s| - 1], p, x);
    }
  }

  /** Concatenation is monotone in the multiset order. */
  lemma MultisetConcat<T>(a: seq<T>, b: seq<T>, c: seq<T>, d: seq<T>)
    requires multiset(a) <= multiset(c) && multiset(b) <= multiset(d)
    ensures multiset(a + b) <= multiset(c + d)
    ensures multiset(a) == multiset(c) && multiset(b) == multiset(d) ==> multiset(a + b) == multiset(c + d)
  {
  }

  /** `f` succeeds on every kept element exactly when it succeeds on every
      element of the list that passes the test. */
  lemma FilterAllSome<T(!new), U>(s: seq<T>, p: T -> bool, f: T -> Option<U>)
    ensures (forall i :: 0 <= i < |Filter(s, p)| ==> f(Filter(s, p)[i]).Some?)
      <==> forall x :: x in s && p(x) ==> f(x).Some?
  {
    if forall i :: 0 <= i < |Filter(s, p)| ==> f(Filter(s, p)[i]).Some? {
      forall x | x in s && p(x) ensures f(x).Some? {
        assert x in Filter(s, p);
        var i :| 0 <= i < |Filter(s, p)| && Filter(s, p)[i] == x;
      }
    } else {
      var i :| 0 <= i < |Filter(s, p)| && f(Filter(s, p)[i]).None?;
      assert Filter(s, p)[i] in Filter(s, p);
    }
  }

  /** `f` applied to every element, or None as soon as one application
      fails (the first exception of a Python loop). */
  function AllSome<T, U>(s: seq<T>, f: T -> Option<U>): (r: Option<seq<U>>)
    ensures r.Some? <==> forall i :: 0 <= i < |s| ==> f(s[i]).Some?
    ensures r.Some? ==> |r.value| == |s| && forall i :: 0 <= i < |s| ==> f(s[i]) == Some(r.value[i])
  {
    if |s| == 0 then Some([])
    else
      match f(s[0])
      case None => None
      case Some(x) =>
        match AllSome(s[1..], f)
        case None =>
          assert exists i :: 1 <= i < |s| && f(s[i]).None? by {
            var j :| 0 <= j < |s| - 1 && f(s[1..][j]).None?;
            assert s[1..][j] == s[j + 1];
          }
          None
        case Some(rest) => Some([x] + rest)
  }

  /** Python's `list.index(x)`: the position of the first value-equal element;
      it raises ValueError (None here) when there is none. */
  function IndexOf<T(==)>(s: seq<T>, x: T): (r: Option<nat>)
    ensures r.Some? <==> x in s
    ensures r.Some? ==> r.value < |s| && s[r.value] == x && x !in s[..r.value]
  {
    if |s| == 0 then None
    else if s[0] == x then Some(0)
    else
      match IndexOf(s[1..], x)
      case None => None
      case Some(k) =>
        assert s[..k + 1] == [s[0]] + s[1..][..k];
        Some(k + 1)
  }

  /** Filtering distributes over concatenation. */
  lemma {:induction false} FilterAppend<T(!new)>(a: seq<T>, b: seq<T>, p: T -> bool)
    ensures Filter(a + b, p) == Filter(a, p) + Filter(b, p)
    decreases |b|
  {
    if |b| > 0 {
      var b' := b[..|b| - 1];
      assert (a + b)[..|a + b| - 1] == a + b';
      FilterAppend(a, b', p);
    } else {
      assert a + b == a;
    }
  }

  /** Filtering by a predicate that splits into two exclusive ones splits the
      multiset accordingly. */
  lemma FilterUnion<T(!new)>(s: seq<T>, p: T -> bool, q: T -> bool, r: T -> bool)
    requires forall x :: p(x) == (q(x) || r(x))
    requires forall x :: !(q(x) && r(x))
    ensures multiset(Filter(s, p)) == multiset(Filter(s, q)) + multiset(Filter(s, r))
  {
    forall x ensures multiset(Filter(s, p))[x] == multiset(Filter(s, q))[x] + multiset(Filter(s, r))[x] {
      FilterCount(s, p, x);
      FilterCount(s, q, x);
      FilterCount(s, r, x);
    }
  }

  /** Sortedness depends only on the keys. */
  lemma SortedByKeys<T>(a: seq<T>, b: seq<T>, key: T -> real)
    requires SortedBy(a, key) && |a| == |b|
    requires forall k :: 0 <= k < |a| ==> key(a[k]) == key(b[k])
    ensures SortedBy(b, key)
  {
  }

  /** `round` never reverses the order of two values. */
  lemma RoundHalfEvenMonotone(x: real, y: real)
    requires x <= y
    ensures RoundHalfEven(x) <= RoundHalfEven(y)
  {
    var fx, fy := x.Floor, y.Floor;
    assert fx <= fy;
    if fx == fy {
      assert x - fx as real <= y - fy as real;
    }
  }

  /** `round` keeps whole numbers. */
  lemma RoundHalfEvenInt(n: int)
    ensures RoundHalfEven(n as real) == n
  {
    assert (n as real).Floor == n;
  }

  /** `list(range(n))`. */
  function Range(n: nat): (r: seq<nat>)
    ensures |r| == n
    ensures forall i :: 0 <= i < n ==> r[i] == i
  {
    seq(n, i requires 0 <= i < n => i)
  }

  /** The median of equal values is that value. */
  lemma MedianConstant(s: seq<real>, c: real)
    requires |s| > 0
    requires forall j :: 0 <= j < |s| ==> s[j] == c
    ensures Median(s) == c
  {
    InsertionSortSpec(s, Id);
    var t := InsertionSort(s, Id);
    forall j | 0 <= j < |t| ensures t[j] == c {
      assert t[j] in multiset(s) by { assert t[j] in multiset(t); }
    }
  }
}
