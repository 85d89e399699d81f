/**
  The array built-ins the planner and the search boxes use: `filter`, `find`
  and `findIndex` with a callback, and the stable `sort`.
*/
module Lists {
  import opened Wrappers
  import opened Text

  /** `a` is `b` with some elements left out, the rest in their order. */
  predicate IsSubsequence<T(==)>(a: seq<T>, b: seq<T>)
    decreases |b|
  {
    if a == [] then true
    else if b == [] then false
    else if a[0] == b[0] then IsSubsequence(a[1..], b[1..])
    else IsSubsequence(a, b[1..])
  }

  /** `s.filter(p)` */
  function Filter<T(==,!new)>(s: seq<T>, p: T -> bool): (r: seq<T>)
    ensures |r| <= |s|
    ensures forall x :: x in r <==> x in s && p(x)
  {
    if s == [] then []
    else
      var rest := Filter(s[1..], p);
      assert forall x :: x in s <==> x == s[0] || x in s[1..];
      if p(s[0]) then [s[0]] + rest else rest
  }

  /** Filtering distributes over concatenation. */
  lemma {:induction false} FilterAppend<T(!new)>(a: seq<T>, b: seq<T>, p: T -> bool)
    ensures Filter(a + b, p) == Filter(a, p) + Filter(b, p)
  {
    if a == [] {
      assert a + b == b;
    } else {
      assert (a + b)[0] == a[0] && (a + b)[1..] == a[1..] + b;
      FilterAppend(a[1..], b, p);
    }
  }

  /** A filter that keeps every element returns the list unchanged. */
  lemma {:induction false} FilterKeepsAll<T(!new)>(s: seq<T>, p: T -> bool)
    requires forall x :: x in s ==> p(x)
    ensures Filter(s, p) == s
  {
    if s != [] {
      assert forall x :: x in s[1..] ==> x in s;
      FilterKeepsAll(s[1..], p);
    }
  }

  /** A filter keeps its survivors in their original order. */
  lemma {:induction false} FilterIsSubsequence<T(!new)>(s: seq<T>, p: T -> bool)
    ensures IsSubsequence(Filter(s, p), s)
  {
    if s != [] {
      FilterIsSubsequence(s[1..], p);
      var rest := Filter(s[1..], p);
      if p(s[0]) {
        assert ([s[0]] + rest)[0] == s[0] && ([s[0]] + rest)[1..] == rest;
      } else if rest != [] {
        assert rest[0] in rest;
      }
    }
  }

  /** Filtering by a narrower predicate after a wider one is filtering by the narrower one alone. */
  lemma {:induction false} FilterNarrower<T(!new)>(s: seq<T>, p: T -> bool, q: T -> bool)
    requires forall x :: x in s && p(x) ==> q(x)
    ensures Filter(Filter(s, q), p) == Filter(s, p)
  {
    if s != [] {
      assert forall x :: x in s[1..] ==> x in s;
      FilterNarrower(s[1..], p, q);
      if q(s[0]) {
        assert Filter(s, q) == [s[0]] + Filter(s[1..], q);
        assert Filter(s, q)[0] == s[0] && Filter(s, q)[1..] == Filter(s[1..], q);
      }
    }
  }

  /** `s.findIndex(p)`, with `None` for -1. */
  function FindIndex<T>(s: seq<T>, p: T -> bool): (r: Option<nat>)
    ensures r.Some? ==> r.value < |s| && p(s[r.value]) && forall j :: 0 <= j < r.value ==> !p(s[j])
    ensures r.None? ==> forall j :: 0 <= j < |s| ==> !p(s[j])
  {
    if s == [] then None
    else if p(s[0]) then Some(0)
    else match FindIndex(s[1..], p)
      case None => None
      case Some(i) => Some(i + 1)
  }

  /** `s.find(p)`, with `None` for `undefined`. */
  function Find<T(==,!new)>(s: seq<T>, p: T -> bool): (r: Option<T>)
    ensures r.Some? ==> r.value in s && p(r.value)
    ensures r.None? <==> forall x :: x in s ==> !p(x)
  {
    match FindIndex(s, p)
    case None => None
    case Some(i) => Some(s[i])
  }

  /** `find` looks at the head first, then at the rest. */
  lemma FindCons<T(!new)>(s: seq<T>, p: T -> bool)
    requires s != []
    ensures Find(s, p) == if p(s[0]) then Some(s[0]) else Find(s[1..], p)
  {
    if !p(s[0]) && FindIndex(s[1..], p).Some? {
      assert s[FindIndex(s[1..], p).value + 1] == s[1..][FindIndex(s[1..], p).value];
    }
  }

  /**
    Looking for the first element satisfying `q` among those satisfying `p`
    finds the first element of the whole list satisfying both.
  */
  lemma {:induction false} FindAfterFilter<T(!new)>(s: seq<T>, p: T -> bool, q: T -> bool)
    ensures Find(Filter(s, p), q) == Find(s, x => p(x) && q(x))
  {
    if s != [] {
      FindAfterFilter(s[1..], p, q);
      FindCons(s, x => p(x) && q(x));
      var rest := Filter(s[1..], p);
      if p(s[0]) {
        var f := [s[0]] + rest;
        assert f[0] == s[0] && f[1..] == rest;
        FindCons(f, q);
      }
    }
  }

  /** `find` on a concatenation looks in the second part only when the first has no match. */
  lemma {:induction false} FindAppend<T(!new)>(a: seq<T>, b: seq<T>, p: T -> bool)
    ensures Find(a + b, p) == if Find(a, p).Some? then Find(a, p) else Find(b, p)
  {
    if a == [] {
      assert a + b == b;
    } else {
      assert (a + b)[0] == a[0] && (a + b)[1..] == a[1..] + b;
      FindCons(a + b, p);
      FindCons(a, p);
      FindAppend(a[1..], b, p);
    }
  }

  /** An element the callback rejects can be added or removed without changing what `find` returns. */
  lemma FindSkips<T(!new)>(a: seq<T>, x: T, b: seq<T>, p: T -> bool)
    requires !p(x)
    ensures Find(a + [x] + b, p) == Find(a + b, p)
  {
    FindAppend(a + [x], b, p);
    FindAppend(a, [x], p);
    FindAppend(a, b, p);
    FindCons([x], p);
    assert [x][1..] == [];
  }

  /** `find` depends only on what its callback answers, not on how the callback is written. */
  lemma {:induction false} FindExtensional<T(!new)>(s: seq<T>, p: T -> bool, q: T -> bool)
    requires forall x :: x in s ==> p(x) == q(x)
    ensures Find(s, p) == Find(s, q)
  {
    if s != [] {
      assert forall x :: x in s[1..] ==> x in s;
      FindExtensional(s[1..], p, q);
      FindCons(s, p);
      FindCons(s, q);
    }
  }

  /** What `find` returns is the element at the first index the callback accepts. */
  lemma FindFirst<T(!new)>(s: seq<T>, p: T -> bool) returns (i: nat)
    requires Find(s, p).Some?
    ensures i < |s| && s[i] == Find(s, p).value
    ensures forall j :: 0 <= j < i ==> !p(s[j])
  {
    i := FindIndex(s, p).value;
  }

  // ---------------------------------------------------------------------------
  // Sorting by a string key

  /** Sorted for `(a, b) => key(a).localeCompare(key(b))`: no key is less than an earlier one. */
  predicate SortedBy<T>(s: seq<T>, key: T -> string)
  {
    forall i, j :: 0 <= i < j < |s| ==> !StrLess(key(s[j]), key(s[i]))
  }

  /** Puts `x` before the first element whose key is not less than its own. */
  function InsertBy<T>(x: T, s: seq<T>, key: T -> string): (r: seq<T>)
    ensures multiset(r) == multiset(s) + multiset{x}
  {
    if s == [] || !StrLess(key(s[0]), key(x)) then [x] + s
    else
      assert s == [s[0]] + s[1..];
      [s[0]] + InsertBy(x, s[1..], key)
  }

  /** No key in `s` is less than `b`. */
  predicate AllAtLeast<T>(s: seq<T>, key: T -> string, b: string)
  {
    forall i :: 0 <= i < |s| ==> !StrLess(key(s[i]), b)
  }

  /** A list is sorted when its head is a lower bound of its sorted tail. */
  lemma SortedCons<T>(s: seq<T>, key: T -> string)
    requires s != []
    ensures SortedBy(s, key) <==> AllAtLeast(s[1..], key, key(s[0])) && SortedBy(s[1..], key)
  {
    var t := s[1..];
    assert forall i :: 0 <= i < |t| ==> t[i] == s[i + 1];
    if AllAtLeast(t, key, key(s[0])) && SortedBy(t, key) {
      forall i, j | 0 <= i < j < |s| ensures !StrLess(key(s[j]), key(s[i])) {
        if i > 0 {
          assert s[i] == t[i - 1] && s[j] == t[j - 1];
        }
      }
    }
  }

  lemma {:induction false} InsertByAtLeast<T>(x: T, s: seq<T>, key: T -> string, b: string)
    requires AllAtLeast(s, key, b) && !StrLess(key(x), b)
    ensures AllAtLeast(InsertBy(x, s, key), key, b)
  {
    if s != [] && StrLess(key(s[0]), key(x)) {
      var t := s[1..];
      assert forall i :: 0 <= i < |t| ==> t[i] == s[i + 1];
      InsertByAtLeast(x, t, key, b);
      var r := [s[0]] + InsertBy(x, t, key);
      assert forall i :: 1 <= i < |r| ==> r[i] == InsertBy(x, t, key)[i - 1];
    } else {
      var r := [x] + s;
      assert forall i :: 1 <= i < |r| ==> r[i] == s[i - 1];
    }
  }

  lemma {:induction false} InsertBySorted<T>(x: T, s: seq<T>, key: T -> string)
    requires SortedBy(s, key)
    ensures SortedBy(InsertBy(x, s, key), key)
  {
    hide SortedBy;
    if s == [] {
      assert InsertBy(x, s, key) == [x];
      SortedCons([x], key);
    } else if StrLess(key(s[0]), key(x)) {
      var t := s[1..];
      SortedCons(s, key);
      InsertBySorted(x, t, key);
      StrLessTotal(key(x), key(s[0]));
      if StrLess(key(x), key(s[0])) {
        StrLessTransitive(key(x), key(s[0]), key(x));
        StrLessIrreflexive(key(x));
      }
      InsertByAtLeast(x, t, key, key(s[0]));
      var r := [s[0]] + InsertBy(x, t, key);
      assert InsertBy(x, s, key) == r;
      assert r[1..] == InsertBy(x, t, key);
      SortedCons(r, key);
    } else {
      var r := [x] + s;
      assert InsertBy(x, s, key) == r;
      SortedCons(s, key);
      assert AllAtLeast(s, key, key(x)) by {
        forall i | 0 <= i < |s| ensures !StrLess(key(s[i]), key(x)) {
          if i > 0 {
            assert s[i] == s[1..][i - 1];
            StrNotLessTransitive(key(x), key(s[0]), key(s[i]));
          }
        }
      }
      assert r[1..] == s;
      SortedCons(r, key);
    }
  }

  /** `[...s].sort((a, b) => key(a).localeCompare(key(b)))`, the stable sort of ECMAScript 2019. */
  function SortBy<T>(s: seq<T>, key: T -> string): (r: seq<T>)
    ensures multiset(r) == multiset(s)
    ensures SortedBy(r, key)
  {
    if s == [] then []
    else
      assert s == [s[0]] + s[1..];
      var t := SortBy(s[1..], key);
      InsertBySorted(s[0], t, key);
      InsertBy(s[0], t, key)
  }

  /** Every element of the filtered list has a key no less than `b`, when every element of the list does. */
  lemma {:induction false} FilterAtLeast<T(!new)>(s: seq<T>, p: T -> bool, key: T -> string, b: string)
    requires AllAtLeast(s, key, b)
    ensures AllAtLeast(Filter(s, p), key, b)
  {
    var f := Filter(s, p);
    forall i | 0 <= i < |f| ensures !StrLess(key(f[i]), b) {
      assert f[i] in f;
      var j :| 0 <= j < |s| && s[j] == f[i];
    }
  }

  /** Filtering a sorted list leaves it sorted. */
  lemma {:induction false} FilterSortedBy<T(!new)>(s: seq<T>, p: T -> bool, key: T -> string)
    requires SortedBy(s, key)
    ensures SortedBy(Filter(s, p), key)
  {
    hide SortedBy;
    if s != [] {
      SortedCons(s, key);
      FilterSortedBy(s[1..], p, key);
      var rest := Filter(s[1..], p);
      if p(s[0]) {
        FilterAtLeast(s[1..], p, key, key(s[0]));
        var f := [s[0]] + rest;
        assert f[0] == s[0] && f[1..] == rest;
        SortedCons(f, key);
      }
    }
  }

  /** Inserting `x` in a sorted list puts it after the smaller keys and before the equal ones. */
  lemma {:induction false} InsertByStable<T(!new)>(x: T, s: seq<T>, key: T -> string, k: string, p: T -> bool)
    requires SortedBy(s, key)
    requires forall y :: p(y) == (key(y) == k)
    ensures Filter(InsertBy(x, s, key), p) == (if key(x) == k then [x] else []) + Filter(s, p)
  {
    if s != [] && StrLess(key(s[0]), key(x)) {
      var t := s[1..];
      assert SortedBy(t, key) by {
        forall i, j | 0 <= i < j < |t| ensures !StrLess(key(t[j]), key(t[i])) {
          assert t[i] == s[i + 1] && t[j] == s[j + 1];
        }
      }
      InsertByStable(x, t, key, k, p);
      var u := InsertBy(x, t, key);
      assert ([s[0]] + u)[0] == s[0] && ([s[0]] + u)[1..] == u;
      if key(s[0]) == k && key(x) == k {
        StrLessIrreflexive(k);
      }
    } else {
      assert ([x] + s)[0] == x && ([x] + s)[1..] == s;
    }
  }

  /** The sort is stable: elements with the same key keep their relative order. */
  lemma {:induction false} SortByStable<T(!new)>(s: seq<T>, key: T -> string, k: string, p: T -> bool)
    requires forall y :: p(y) == (key(y) == k)
    ensures Filter(SortBy(s, key), p) == Filter(s, p)
  {
    if s != [] {
      SortByStable(s[1..], key, k, p);
      InsertByStable(s[0], SortBy(s[1..], key), key, k, p);
    }
  }
}
