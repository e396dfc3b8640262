/**
 Code-point order on strings, and the stable sort behind Python's `sorted(xs, key=...)`.
 */
module Ordering {

  /** `a` is not after `b` in code-point order, the order in which Python compares strings. */
  predicate Below(a: string, b: string) {
    a == "" || (b != "" && (a[0] < b[0] || (a[0] == b[0] && Below(a[1..], b[1..]))))
  }

  lemma {:induction false} BelowReflexive(a: string)
    ensures Below(a, a)
  {
    if a != "" {
      BelowReflexive(a[1..]);
    }
  }

  lemma {:induction false} BelowTotal(a: string, b: string)
    ensures Below(a, b) || Below(b, a)
  {
    if a != "" && b != "" {
      BelowTotal(a[1..], b[1..]);
    }
  }

  lemma {:induction false} BelowAntisymmetric(a: string, b: string)
    requires Below(a, b) && Below(b, a)
    ensures a == b
  {
    if a != "" {
      BelowAntisymmetric(a[1..], b[1..]);
      assert a == [a[0]] + a[1..] && b == [b[0]] + b[1..];
    }
  }

  lemma {:induction false} BelowTransitive(a: string, b: string, c: string)
    requires Below(a, b) && Below(b, c)
    ensures Below(a, c)
  {
    if a != "" && a[0] == b[0] == c[0] {
      BelowTransitive(a[1..], b[1..], c[1..]);
    }
  }

  /** `a` and `b` agree up to `n`, where `a` has the smaller code point. */
  ghost predicate SmallerAt(a: string, b: string, n: nat) {
    n < |a| && n < |b| && a[..n] == b[..n] && a[n] < b[n]
  }

  /** `a` is a prefix of `b`, or has the smaller code point where they first differ. */
  ghost predicate Ascends(a: string, b: string) {
    a <= b || exists n: nat :: SmallerAt(a, b, n)
  }

  lemma {:induction false} BelowIffAscends(a: string, b: string)
    ensures Below(a, b) <==> Ascends(a, b)
  {
    if a != "" && b != "" {
      BelowIffAscends(a[1..], b[1..]);
      assert a == [a[0]] + a[1..] && b == [b[0]] + b[1..];
      if Below(a, b) {
        if a[0] < b[0] {
          assert SmallerAt(a, b, 0);
        } else if n: nat :| SmallerAt(a[1..], b[1..], n) {
          assert a[..n + 1] == [a[0]] + a[1..][..n] && b[..n + 1] == [b[0]] + b[1..][..n];
          assert SmallerAt(a, b, n + 1);
        }
      }
      if n: nat :| SmallerAt(a, b, n) {
        AscendsTail(a, b, n);
      }
    }
  }

  lemma AscendsTail(a: string, b: string, n: nat)
    requires SmallerAt(a, b, n)
    ensures a[0] < b[0] || (a[0] == b[0] && SmallerAt(a[1..], b[1..], n - 1))
  {
    if n > 0 {
      assert a[0] == a[..n][0] == b[..n][0] == b[0];
      assert a[1..][..n - 1] == a[..n][1..] && b[1..][..n - 1] == b[..n][1..];
    }
  }

  ghost predicate SortedBy<T(!new)>(key: T -> string, s: seq<T>) {
    forall i, j :: 0 <= i < j < |s| ==> Below(key(s[i]), key(s[j]))
  }

  ghost predicate InjectiveOn<T(!new)>(key: T -> string, s: seq<T>) {
    forall x, y :: x in s && y in s && key(x) == key(y) ==> x == y
  }

  ghost predicate Distinct<T(!new)>(s: seq<T>) {
    forall i, j :: 0 <= i < j < |s| ==> s[i] != s[j]
  }

  /** Puts `x` behind every element whose key is not after its own. */
  function Insert<T(!new)>(key: T -> string, x: T, s: seq<T>): (r: seq<T>)
    ensures multiset(r) == multiset(s) + multiset{x}
  {
    if s == [] then [x]
    else if Below(key(s[0]), key(x)) then
      assert s == [s[0]] + s[1..];
      [s[0]] + Insert(key, x, s[1..])
    else [x] + s
  }

  /** Stable sort: elements enter from the left, each behind its equals. */
  function Sort<T(!new)>(key: T -> string, s: seq<T>): (r: seq<T>)
    ensures multiset(r) == multiset(s)
  {
    if s == [] then []
    else
      assert s == s[..|s| - 1] + [s[|s| - 1]];
      Insert(key, s[|s| - 1], Sort(key, s[..|s| - 1]))
  }

  lemma {:induction false} SameElements<T(!new)>(s: seq<T>, t: seq<T>)
    requires multiset(s) == multiset(t)
    ensures |s| == |t|
    ensures forall x :: x in s <==> x in t
  {
    assert |multiset(s)| == |s| && |multiset(t)| == |t|;
    assert forall x :: x in s <==> x in multiset(s);
    assert forall x :: x in t <==> x in multiset(t);
  }

  lemma {:induction false} InsertKeepsSorted<T(!new)>(key: T -> string, x: T, s: seq<T>)
    requires SortedBy(key, s)
    ensures SortedBy(key, Insert(key, x, s))
  {
    var r := Insert(key, x, s);
    if s == [] {
    } else if Below(key(s[0]), key(x)) {
      var tail := Insert(key, x, s[1..]);
      InsertKeepsSorted(key, x, s[1..]);
      forall j | 0 <= j < |tail|
        ensures Below(key(s[0]), key(tail[j]))
      {
        assert tail[j] in multiset(tail);
        assert tail[j] in multiset(s[1..]) + multiset{x};
        if tail[j] != x {
          assert tail[j] in s[1..];
        }
      }
      assert r == [s[0]] + tail;
    } else {
      forall j | 0 <= j < |s|
        ensures Below(key(x), key(s[j]))
      {
        BelowTotal(key(s[0]), key(x));
        if j > 0 {
          BelowTransitive(key(x), key(s[0]), key(s[j]));
        }
      }
      assert r == [x] + s;
    }
  }

  lemma {:induction false} SortIsSorted<T(!new)>(key: T -> string, s: seq<T>)
    ensures SortedBy(key, Sort(key, s))
  {
    if s != [] {
      SortIsSorted(key, s[..|s| - 1]);
      InsertKeepsSorted(key, s[|s| - 1], Sort(key, s[..|s| - 1]));
    }
  }

  lemma LeastComesFirst<T(!new)>(key: T -> string, s: seq<T>, x: T)
    requires SortedBy(key, s) && x in s
    ensures Below(key(s[0]), key(x))
  {
    var i :| 0 <= i < |s| && s[i] == x;
    BelowReflexive(key(x));
  }

  lemma TailMultiset<T(!new)>(s: seq<T>)
    requires s != []
    ensures multiset(s[1..]) == multiset(s) - multiset{s[0]}
  {
    assert s == [s[0]] + s[1..];
  }

  /** A sorted arrangement is unique when the key tells the elements apart. */
  lemma {:induction false} SortedUnique<T(!new)>(key: T -> string, s: seq<T>, t: seq<T>)
    requires SortedBy(key, s) && SortedBy(key, t)
    requires multiset(s) == multiset(t)
    requires InjectiveOn(key, s)
    ensures s == t
  {
    SameElements(s, t);
    if s != [] {
      assert s[0] == t[0] by {
        assert s[0] in t && t[0] in s;
        LeastComesFirst(key, s, t[0]);
        LeastComesFirst(key, t, s[0]);
        BelowAntisymmetric(key(s[0]), key(t[0]));
      }
      TailMultiset(s);
      TailMultiset(t);
      SortedUnique(key, s[1..], t[1..]);
      assert s == [s[0]] + s[1..] && t == [t[0]] + t[1..];
    }
  }

  /** Sorting forgets the order of its input. */
  lemma {:induction false} SortForgetsOrder<T(!new)>(key: T -> string, s: seq<T>, t: seq<T>)
    requires multiset(s) == multiset(t)
    requires InjectiveOn(key, s)
    ensures Sort(key, s) == Sort(key, t)
  {
    SortIsSorted(key, s);
    SortIsSorted(key, t);
    SameElements(s, Sort(key, s));
    assert InjectiveOn(key, Sort(key, s)) by {
      forall x, y | x in Sort(key, s) && y in Sort(key, s) && key(x) == key(y)
        ensures x == y
      {
        assert x in s && y in s;
      }
    }
    SortedUnique(key, Sort(key, s), Sort(key, t));
  }

  function Filter<T(!new)>(keep: T -> bool, s: seq<T>): (r: seq<T>) {
    if s == [] then []
    else if keep(s[0]) then [s[0]] + Filter(keep, s[1..])
    else Filter(keep, s[1..])
  }

  lemma {:induction false} FilterElements<T(!new)>(keep: T -> bool, s: seq<T>)
    ensures forall x :: x in Filter(keep, s) <==> x in s && keep(x)
  {
    if s != [] {
      FilterElements(keep, s[1..]);
      assert s == [s[0]] + s[1..];
    }
  }

  lemma {:induction false} FilterConcat<T(!new)>(keep: T -> bool, s: seq<T>, t: seq<T>)
    ensures Filter(keep, s + t) == Filter(keep, s) + Filter(keep, t)
  {
    if s == [] {
      assert s + t == t;
    } else {
      FilterConcat(keep, s[1..], t);
      assert (s + t)[1..] == s[1..] + t;
    }
  }

  lemma FilterCons<T(!new)>(keep: T -> bool, x: T, s: seq<T>)
    ensures Filter(keep, [x] + s) == if keep(x) then [x] + Filter(keep, s) else Filter(keep, s)
  {
    assert ([x] + s)[1..] == s;
  }

  lemma FilterSnoc<T(!new)>(keep: T -> bool, s: seq<T>, x: T)
    ensures Filter(keep, s + [x]) == if keep(x) then Filter(keep, s) + [x] else Filter(keep, s)
  {
    FilterConcat(keep, s, [x]);
  }

  lemma InsertCons<T(!new)>(key: T -> string, x: T, y: T, s: seq<T>)
    ensures Insert(key, x, [y] + s)
         == if Below(key(y), key(x)) then [y] + Insert(key, x, s) else [x] + [y] + s
  {
    assert ([y] + s)[1..] == s;
  }

  /** An element that goes before a whole sorted sequence is inserted at its front. */
  lemma InsertAtFront<T(!new)>(key: T -> string, x: T, s: seq<T>)
    requires forall y | y in s :: !Below(key(y), key(x))
    ensures Insert(key, x, s) == [x] + s
  {
  }

  lemma {:induction false} FilterInsert<T(!new)>(keep: T -> bool, key: T -> string, x: T, s: seq<T>)
    requires SortedBy(key, s)
    ensures Filter(keep, Insert(key, x, s))
         == if keep(x) then Insert(key, x, Filter(keep, s)) else Filter(keep, s)
  {
    if s == [] {
      FilterCons(keep, x, []);
    } else if Below(key(s[0]), key(x)) {
      FilterInsert(keep, key, x, s[1..]);
      FilterCons(keep, s[0], Insert(key, x, s[1..]));
      InsertCons(key, x, s[0], Filter(keep, s[1..]));
    } else {
      FilterCons(keep, x, s);
      FilterElements(keep, s);
      GoesBeforeAll(key, x, s);
      InsertAtFront(key, x, Filter(keep, s));
    }
  }

  lemma GoesBeforeAll<T(!new)>(key: T -> string, x: T, s: seq<T>)
    requires SortedBy(key, s) && s != [] && !Below(key(s[0]), key(x))
    ensures forall y :: y in s ==> !Below(key(y), key(x))
  {
    forall y | y in s
      ensures !Below(key(y), key(x))
    {
      LeastComesFirst(key, s, y);
      if Below(key(y), key(x)) {
        BelowTransitive(key(s[0]), key(y), key(x));
      }
    }
  }

  lemma SortSnoc<T(!new)>(key: T -> string, s: seq<T>, x: T)
    ensures Sort(key, s + [x]) == Insert(key, x, Sort(key, s))
  {
    assert (s + [x])[..|s + [x]| - 1] == s;
  }

  /** Filtering commutes with sorting. */
  lemma {:induction false} FilterSort<T(!new)>(keep: T -> bool, key: T -> string, s: seq<T>)
    ensures Filter(keep, Sort(key, s)) == Sort(key, Filter(keep, s))
  {
    if s != [] {
      var u, x := s[..|s| - 1], s[|s| - 1];
      assert s == u + [x];
      calc {
        Filter(keep, Sort(key, s));
        { SortSnoc(key, u, x); }
        Filter(keep, Insert(key, x, Sort(key, u)));
        { SortIsSorted(key, u); FilterInsert(keep, key, x, Sort(key, u)); }
        if keep(x) then Insert(key, x, Filter(keep, Sort(key, u))) else Filter(keep, Sort(key, u));
        { FilterSort(keep, key, u); SortSnoc(key, Filter(keep, u), x); }
        if keep(x) then Sort(key, Filter(keep, u) + [x]) else Sort(key, Filter(keep, u));
        { FilterSnoc(keep, u, x); }
        Sort(key, Filter(keep, s));
      }
    }
  }

  lemma {:induction false} OnceEachIsDistinct<T(!new)>(s: seq<T>)
    requires forall x :: x in s ==> multiset(s)[x] == 1
    ensures Distinct(s)
  {
    if s != [] {
      TailMultiset(s);
      assert s[0] !in multiset(s[1..]);
      forall x | x in s[1..]
        ensures multiset(s[1..])[x] == 1
      {
        assert x in s;
      }
      OnceEachIsDistinct(s[1..]);
    }
  }

  lemma {:induction false} DistinctIsOnceEach<T(!new)>(s: seq<T>, x: T)
    requires Distinct(s)
    ensures multiset(s)[x] == if x in s then 1 else 0
  {
    if s != [] {
      TailMultiset(s);
      DistinctIsOnceEach(s[1..], x);
      assert s == [s[0]] + s[1..];
    }
  }

  /** Two listings of the same set without repetition are permutations of each other. */
  lemma DistinctPermutation<T(!new)>(s: seq<T>, t: seq<T>)
    requires Distinct(s) && Distinct(t)
    requires forall x :: x in s <==> x in t
    ensures multiset(s) == multiset(t)
  {
    forall x
      ensures multiset(s)[x] == multiset(t)[x]
    {
      DistinctIsOnceEach(s, x);
      DistinctIsOnceEach(t, x);
    }
  }

  /** The sorted listing of a set of names. */
  method SortedNames(names: set<string>) returns (r: seq<string>)
    ensures SortedBy((n: string) => n, r)
    ensures Distinct(r)
    ensures forall n :: n in r <==> n in names
  {
    var key := (n: string) => n;
    r := [];
    var rest := names;
    while rest != {}
      invariant rest <= names
      invariant forall n :: n in multiset(r) <==> n in names - rest
      invariant forall n :: n in multiset(r) ==> multiset(r)[n] == 1
      invariant SortedBy(key, r)
      decreases rest
    {
      var n :| n in rest;
      InsertKeepsSorted(key, n, r);
      assert n !in multiset(r);
      r := Insert(key, n, r);
      rest := rest - {n};
    }
    assert forall n :: n in r <==> n in multiset(r);
    OnceEachIsDistinct(r);
  }
}
