/** The in-place date sort that the workshop, market-insight and financing queries
    apply to the store's answer: `Array.prototype.sort` with a comparator that
    subtracts two `getTime()` timestamps.

    A timestamp is `Option<int>`, `None` standing for NaN (a missing or unparseable
    date). Following SortCompare (section 23.1.3.30.2 of ECMA-262), a comparator
    result that is NaN counts as +0, and an element moves past another only when the
    comparator is positive. The sorting algorithm itself is left to the engine; the
    model fixes a stable insertion sort, and `StableSortIsUnique` shows that whenever
    every date parses, any stable sort by the same comparator gives the same result. */
module DateSort {
  import opened Wrappers
  import opened Seqs

  datatype Direction = Ascending | Descending

  /** `dateA - dateB` (ascending) or `dateB - dateA` (descending); NaN if either is NaN. */
  function Compare(dir: Direction, a: Option<int>, b: Option<int>): Option<int> {
    if a.None? || b.None? then None
    else match dir
      case Ascending => Some(a.value - b.value)
      case Descending => Some(b.value - a.value)
  }

  /** Whether the sort must place `a` after `b`: the comparator is a number above 0. */
  predicate Greater(dir: Direction, a: Option<int>, b: Option<int>) {
    var c := Compare(dir, a, b);
    c.Some? && c.value > 0
  }

  /** The order the comparator means, on two dates that both parse. */
  predicate InOrder(dir: Direction, a: int, b: int) {
    match dir
    case Ascending => a <= b
    case Descending => a >= b
  }

  predicate AllDated<T>(s: seq<T>, key: T -> Option<int>) {
    forall k :: 0 <= k < |s| ==> key(s[k]).Some?
  }

  /** Every earlier element's date is in order with every later one's. */
  predicate Ordered<T>(s: seq<T>, key: T -> Option<int>, dir: Direction)
    requires AllDated(s, key)
  {
    forall i, j :: 0 <= i < j < |s| ==> InOrder(dir, key(s[i]).value, key(s[j]).value)
  }

  /** The elements whose date is `d`, in their order in `s`. */
  function WithDate<T>(s: seq<T>, key: T -> Option<int>, d: Option<int>): seq<T> {
    if s == [] then []
    else (if key(s[0]) == d then [s[0]] else []) + WithDate(s[1..], key, d)
  }

  /** `r` keeps, for every date, the relative order that `s` gives the elements
      carrying it: the sort is stable. */
  ghost predicate StableFrom<T>(r: seq<T>, s: seq<T>, key: T -> Option<int>) {
    forall d :: WithDate(r, key, d) == WithDate(s, key, d)
  }

  /** Inserts `x` into `s` scanning from the end, moving past every element that
      the comparator places after `x`. */
  function Insert<T>(s: seq<T>, x: T, key: T -> Option<int>, dir: Direction): (r: seq<T>)
    ensures |r| == |s| + 1
  {
    if s == [] then [x]
    else if Greater(dir, key(s[|s| - 1]), key(x)) then Insert(s[..|s| - 1], x, key, dir) + [s[|s| - 1]]
    else s + [x]
  }

  /** Insertion sort: each element in turn is inserted into the sorted prefix. */
  function Sorted<T>(s: seq<T>, key: T -> Option<int>, dir: Direction): (r: seq<T>)
    ensures |r| == |s|
  {
    if s == [] then [] else Insert(Sorted(s[..|s| - 1], key, dir), s[|s| - 1], key, dir)
  }

  /** Unfolds one step of `Insert` at position `j` of `s`. */
  lemma InsertStep<T>(s: seq<T>, j: nat, x: T, key: T -> Option<int>, dir: Direction)
    requires 0 < j <= |s|
    requires Greater(dir, key(s[j - 1]), key(x))
    ensures Insert(s[..j], x, key, dir) + s[j..] == Insert(s[..j - 1], x, key, dir) + s[j - 1..]
  {
    assert s[..j][..j - 1] == s[..j - 1];
    assert s[j - 1..] == [s[j - 1]] + s[j..];
  }

  /** Inserts `a[i]` into the prefix `a[..i]`, shifting the larger elements right. */
  method InsertLast<T>(a: array<T>, i: nat, key: T -> Option<int>, dir: Direction)
    requires i < a.Length
    modifies a
    ensures a[..i + 1] == Insert(old(a[..i]), old(a[i]), key, dir)
    ensures a[i + 1..] == old(a[i + 1..])
  {
    ghost var prefix := a[..i];
    var x := a[i];
    var j := i;
    while j > 0 && Greater(dir, key(a[j - 1]), key(x))
      invariant 0 <= j <= i
      invariant forall k :: 0 <= k < j ==> a[k] == prefix[k]
      invariant forall k :: j < k <= i ==> a[k] == prefix[k - 1]
      invariant forall k :: i < k < a.Length ==> a[k] == old(a[k])
      invariant forall k :: j <= k < i ==> Greater(dir, key(prefix[k]), key(x))
    {
      a[j] := a[j - 1];
      j := j - 1;
    }
    a[j] := x;
    InsertPastGreater(prefix, j, x, key, dir);
    InsertHere(a[..i + 1], prefix, j, x, key, dir);
  }

  /** Inserting `x` moves it past a suffix of elements that the comparator all
      places after it. */
  lemma {:induction false} InsertPastGreater<T>(s: seq<T>, j: nat, x: T, key: T -> Option<int>, dir: Direction)
    requires j <= |s|
    requires forall k :: j <= k < |s| ==> Greater(dir, key(s[k]), key(x))
    ensures Insert(s, x, key, dir) == Insert(s[..j], x, key, dir) + s[j..]
    decreases |s| - j
  {
    if j == |s| {
      assert s[..j] == s && s[j..] == [];
    } else {
      InsertPastGreater(s, j + 1, x, key, dir);
      InsertStep(s, j + 1, x, key, dir);
    }
  }

  /** The array once `x` is written into the gap at `j`: the prefix up to `j`, `x`,
      then the rest of the prefix, which is what `Insert` builds when the scan
      stops at `j`. */
  lemma InsertHere<T>(cur: seq<T>, prefix: seq<T>, j: nat, x: T, key: T -> Option<int>, dir: Direction)
    requires j <= |prefix| && |cur| == |prefix| + 1
    requires forall k :: 0 <= k < j ==> cur[k] == prefix[k]
    requires cur[j] == x
    requires forall k :: j < k <= |prefix| ==> cur[k] == prefix[k - 1]
    requires j == 0 || !Greater(dir, key(prefix[j - 1]), key(x))
    requires Insert(prefix, x, key, dir) == Insert(prefix[..j], x, key, dir) + prefix[j..]
    ensures cur == Insert(prefix, x, key, dir)
  {
    assert Insert(prefix[..j], x, key, dir) == prefix[..j] + [x];
    assert cur == prefix[..j] + [x] + prefix[j..];
  }

  /** Sorts `a` in place; afterwards `a` holds `Sorted` of its old contents. */
  method SortInPlace<T>(a: array<T>, key: T -> Option<int>, dir: Direction)
    modifies a
    ensures a[..] == Sorted(old(a[..]), key, dir)
  {
    ghost var input := a[..];
    var i := 0;
    while i < a.Length
      invariant 0 <= i <= a.Length
      invariant a[..i] == Sorted(input[..i], key, dir)
      invariant a[i..] == input[i..]
    {
      assert a[i] == input[i] && a[i + 1..] == input[i + 1..] by {
        assert a[i] == a[i..][0] && input[i] == input[i..][0];
        assert a[i + 1..] == a[i..][1..] && input[i + 1..] == input[i..][1..];
      }
      InsertLast(a, i, key, dir);
      SortedStep(input, i, key, dir);
      i := i + 1;
    }
    assert input[..a.Length] == input;
  }

  /** Sorting one more element of the input inserts it into the sorted prefix. */
  lemma SortedStep<T>(s: seq<T>, i: nat, key: T -> Option<int>, dir: Direction)
    requires i < |s|
    ensures Sorted(s[..i + 1], key, dir) == Insert(Sorted(s[..i], key, dir), s[i], key, dir)
  {
    assert s[..i + 1][..i] == s[..i];
  }

  /** Inserting adds `x` and keeps everything else. */
  lemma {:induction false} InsertPermutes<T>(s: seq<T>, x: T, key: T -> Option<int>, dir: Direction)
    ensures multiset(Insert(s, x, key, dir)) == multiset(s) + multiset{x}
  {
    if s != [] && Greater(dir, key(s[|s| - 1]), key(x)) {
      var init := s[..|s| - 1];
      InsertPermutes(init, x, key, dir);
      assert s == init + [s[|s| - 1]];
    }
  }

  /** The sort returns a permutation of its input, whatever the dates. */
  lemma {:induction false} SortedPermutes<T>(s: seq<T>, key: T -> Option<int>, dir: Direction)
    ensures multiset(Sorted(s, key, dir)) == multiset(s)
  {
    if s != [] {
      var init := s[..|s| - 1];
      SortedPermutes(init, key, dir);
      InsertPermutes(Sorted(init, key, dir), s[|s| - 1], key, dir);
      assert s == init + [s[|s| - 1]];
    }
  }

  /** Inserting a dated element into an ordered, dated sequence keeps it ordered. */
  lemma {:induction false} InsertOrdered<T>(s: seq<T>, x: T, key: T -> Option<int>, dir: Direction)
    requires AllDated(s, key) && key(x).Some? && Ordered(s, key, dir)
    ensures AllDated(Insert(s, x, key, dir), key) && Ordered(Insert(s, x, key, dir), key, dir)
  {
    InsertDated(s, x, key, dir);
    if s == [] {
    } else if Greater(dir, key(s[|s| - 1]), key(x)) {
      var init, last := s[..|s| - 1], s[|s| - 1];
      InsertOrdered(init, x, key, dir);
      InsertDated(init, x, key, dir);
      FrontBeforeLast(s, Insert(init, x, key, dir), x, key, dir);
      OrderedAppend(Insert(init, x, key, dir), last, key, dir);
    } else {
      forall i | 0 <= i < |s| ensures InOrder(dir, key(s[i]).value, key(x).value) {
        assert InOrder(dir, key(s[i]).value, key(s[|s| - 1]).value) || i == |s| - 1;
      }
      OrderedAppend(s, x, key, dir);
    }
  }

  /** Inserting a dated element into a dated sequence leaves it dated. */
  lemma InsertDated<T>(s: seq<T>, x: T, key: T -> Option<int>, dir: Direction)
    requires AllDated(s, key) && key(x).Some?
    ensures AllDated(Insert(s, x, key, dir), key)
  {
    var r := Insert(s, x, key, dir);
    InsertPermutes(s, x, key, dir);
    forall k | 0 <= k < |r| ensures key(r[k]).Some? {
      assert r[k] in multiset(r);
    }
  }

  /** When `x` moves past the last element, everything in front of that element
      after the insertion, `x` included, is in order with it. */
  lemma FrontBeforeLast<T>(s: seq<T>, front: seq<T>, x: T, key: T -> Option<int>, dir: Direction)
    requires s != [] && AllDated(s, key) && key(x).Some? && Ordered(s, key, dir)
    requires Greater(dir, key(s[|s| - 1]), key(x))
    requires front == Insert(s[..|s| - 1], x, key, dir)
    ensures AllDated(front, key)
    ensures forall i :: 0 <= i < |front| ==> InOrder(dir, key(front[i]).value, key(s[|s| - 1]).value)
  {
    var init, last := s[..|s| - 1], s[|s| - 1];
    InsertDated(init, x, key, dir);
    InsertPermutes(init, x, key, dir);
    forall i | 0 <= i < |front| ensures InOrder(dir, key(front[i]).value, key(last).value) {
      assert front[i] in multiset(front);
      if front[i] != x {
        assert front[i] in init;
        var m :| 0 <= m < |init| && init[m] == front[i];
        assert s[m] == front[i];
      }
    }
  }

  /** An ordered sequence stays ordered when an element in order with all of it
      is put in front. */
  lemma OrderedCons<T>(y: T, s: seq<T>, key: T -> Option<int>, dir: Direction)
    requires AllDated(s, key) && key(y).Some? && Ordered(s, key, dir)
    requires forall j :: 0 <= j < |s| ==> InOrder(dir, key(y).value, key(s[j]).value)
    ensures AllDated([y] + s, key) && Ordered([y] + s, key, dir)
  {
    var t := [y] + s;
    assert forall k :: 0 < k < |t| ==> t[k] == s[k - 1];
  }

  /** An ordered sequence stays ordered when an element in order with all of it
      is appended. */
  lemma OrderedAppend<T>(s: seq<T>, y: T, key: T -> Option<int>, dir: Direction)
    requires AllDated(s, key) && key(y).Some? && Ordered(s, key, dir)
    requires forall i :: 0 <= i < |s| ==> InOrder(dir, key(s[i]).value, key(y).value)
    ensures AllDated(s + [y], key) && Ordered(s + [y], key, dir)
  {
    var t := s + [y];
    assert forall k :: 0 <= k < |s| ==> t[k] == s[k];
  }

  /** When every date parses, the sort's output is ordered by date. */
  lemma {:induction false} SortedIsOrdered<T>(s: seq<T>, key: T -> Option<int>, dir: Direction)
    requires AllDated(s, key)
    ensures AllDated(Sorted(s, key, dir), key) && Ordered(Sorted(s, key, dir), key, dir)
  {
    if s != [] {
      var init := s[..|s| - 1];
      SortedIsOrdered(init, key, dir);
      InsertOrdered(Sorted(init, key, dir), s[|s| - 1], key, dir);
    }
  }

  lemma {:induction false} WithDateConcat<T>(a: seq<T>, b: seq<T>, key: T -> Option<int>, d: Option<int>)
    ensures WithDate(a + b, key, d) == WithDate(a, key, d) + WithDate(b, key, d)
  {
    if a != [] {
      WithDateConcat(a[1..], b, key, d);
      assert (a + b)[1..] == a[1..] + b;
      var head := if key(a[0]) == d then [a[0]] else [];
      ConcatAssoc(head, WithDate(a[1..], key, d), WithDate(b, key, d));
    } else {
      assert a + b == b;
    }
  }

  /** Inserting `x` puts it after every element that carries its date. */
  lemma {:induction false} InsertStable<T>(s: seq<T>, x: T, key: T -> Option<int>, dir: Direction, d: Option<int>)
    ensures WithDate(Insert(s, x, key, dir), key, d) == WithDate(s, key, d) + WithDate([x], key, d)
  {
    if s == [] {
    } else {
      var init, last := s[..|s| - 1], s[|s| - 1];
      assert s == init + [last];
      WithDateConcat(init, [last], key, d);
      if Greater(dir, key(last), key(x)) {
        InsertStable(init, x, key, dir, d);
        WithDateConcat(Insert(init, x, key, dir), [last], key, d);
        WithDateConcat(init, [x], key, d);
        assert key(last) != key(x);
      } else {
        WithDateConcat(s, [x], key, d);
      }
    }
  }

  /** When every date parses, elements with equal dates keep their input order. */
  lemma {:induction false} SortedIsStable<T>(s: seq<T>, key: T -> Option<int>, dir: Direction)
    requires AllDated(s, key)
    ensures StableFrom(Sorted(s, key, dir), s, key)
  {
    forall d ensures WithDate(Sorted(s, key, dir), key, d) == WithDate(s, key, d) {
      SortedStableAt(s, key, dir, d);
    }
  }

  lemma {:induction false} SortedStableAt<T>(s: seq<T>, key: T -> Option<int>, dir: Direction, d: Option<int>)
    ensures WithDate(Sorted(s, key, dir), key, d) == WithDate(s, key, d)
  {
    if s != [] {
      var init, last := s[..|s| - 1], s[|s| - 1];
      SortedStableAt(init, key, dir, d);
      InsertStable(Sorted(init, key, dir), last, key, dir, d);
      assert s == init + [last];
      WithDateConcat(init, [last], key, d);
    }
  }

  /** An element of `s` carrying date `d`, if `WithDate` finds one. */
  lemma {:induction false} WithDateWitness<T>(s: seq<T>, key: T -> Option<int>, d: Option<int>) returns (m: nat)
    requires WithDate(s, key, d) != []
    ensures m < |s| && key(s[m]) == d
  {
    if key(s[0]) == d {
      m := 0;
    } else {
      m := WithDateWitness(s[1..], key, d);
      m := m + 1;
    }
  }

  /** The first element is among the elements with its date. */
  lemma WithDateOfHead<T>(s: seq<T>, key: T -> Option<int>)
    requires s != []
    ensures WithDate(s, key, key(s[0])) != []
  {
  }

  /** Two date-ordered sequences that agree on every date's elements are equal. */
  lemma {:induction false} OrderedAgreeingAreEqual<T>(r: seq<T>, t: seq<T>, key: T -> Option<int>, dir: Direction)
    requires AllDated(r, key) && AllDated(t, key)
    requires Ordered(r, key, dir) && Ordered(t, key, dir)
    requires forall d :: WithDate(r, key, d) == WithDate(t, key, d)
    ensures r == t
  {
    if r != [] {
      WithDateOfHead(r, key);
    }
    if t != [] {
      WithDateOfHead(t, key);
    }
    if r != [] && t != [] {
      SameFirst(r, t, key, dir);
      TailsAgree(r, t, key);
      OrderedTail(r, key, dir);
      OrderedTail(t, key, dir);
      OrderedAgreeingAreEqual(r[1..], t[1..], key, dir);
      assert r == [r[0]] + r[1..] && t == [t[0]] + t[1..];
    }
  }

  /** Two ordered sequences that agree on every date's elements start alike: each
      one's first date occurs in the other, so neither can come before the other. */
  lemma SameFirst<T>(r: seq<T>, t: seq<T>, key: T -> Option<int>, dir: Direction)
    requires r != [] && t != [] && AllDated(r, key) && AllDated(t, key)
    requires Ordered(r, key, dir) && Ordered(t, key, dir)
    requires forall d :: WithDate(r, key, d) == WithDate(t, key, d)
    ensures r[0] == t[0]
  {
    var dr, dt := key(r[0]), key(t[0]);
    WithDateOfHead(r, key);
    WithDateOfHead(t, key);
    var mt := WithDateWitness(t, key, dr);
    var mr := WithDateWitness(r, key, dt);
    assert mt == 0 || InOrder(dir, dt.value, dr.value);
    assert mr == 0 || InOrder(dir, dr.value, dt.value);
    assert dr == dt;
    assert WithDate(r, key, dr)[0] == r[0];
    assert WithDate(t, key, dr)[0] == t[0];
  }

  /** Agreement on every date carries over from two sequences with equal first
      elements to their tails. */
  lemma TailsAgree<T>(r: seq<T>, t: seq<T>, key: T -> Option<int>)
    requires r != [] && t != [] && r[0] == t[0]
    requires forall d :: WithDate(r, key, d) == WithDate(t, key, d)
    ensures forall d :: WithDate(r[1..], key, d) == WithDate(t[1..], key, d)
  {
    forall d ensures WithDate(r[1..], key, d) == WithDate(t[1..], key, d) {
      var head := if key(r[0]) == d then [r[0]] else [];
      assert WithDate(r, key, d) == WithDate(t, key, d);
      CancelPrefix(head, WithDate(r[1..], key, d), WithDate(t[1..], key, d));
    }
  }

  /** The tail of an ordered, dated sequence is ordered and dated. */
  lemma OrderedTail<T>(s: seq<T>, key: T -> Option<int>, dir: Direction)
    requires s != [] && AllDated(s, key) && Ordered(s, key, dir)
    ensures AllDated(s[1..], key) && Ordered(s[1..], key, dir)
  {
    var u := s[1..];
    assert forall k :: 0 <= k < |u| ==> u[k] == s[k + 1];
  }

  /** When every date parses, the sort's output is the only ordered arrangement
      that keeps equal dates in input order: any stable sort by this comparator,
      in particular the engine's, returns exactly `Sorted`. */
  lemma StableSortIsUnique<T>(s: seq<T>, r: seq<T>, key: T -> Option<int>, dir: Direction)
    requires AllDated(s, key) && AllDated(r, key)
    requires Ordered(r, key, dir) && StableFrom(r, s, key)
    ensures r == Sorted(s, key, dir)
  {
    SortedIsOrdered(s, key, dir);
    SortedIsStable(s, key, dir);
    OrderedAgreeingAreEqual(r, Sorted(s, key, dir), key, dir);
  }
}
