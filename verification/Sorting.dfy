/**
 The stable sorts of the repository, for any order.  Hash maps are iterated in an
 arbitrary order; sorting is what makes the results independent of it.
 */
module Sorting {

  ghost predicate TotalPreorder<T(!new)>(le: (T, T) -> bool) {
    && (forall x, y :: le(x, y) || le(y, x))
    && (forall x, y, z :: le(x, y) && le(y, z) ==> le(x, z))
  }

  ghost predicate Sorted<T>(le: (T, T) -> bool, s: seq<T>) {
    forall i, j :: 0 <= i < j < |s| ==> le(s[i], s[j])
  }

  function Insert<T>(le: (T, T) -> bool, x: T, s: seq<T>): seq<T> {
    if s == [] then [x]
    else if le(x, s[0]) then [x] + s
    else [s[0]] + Insert(le, x, s[1..])
  }

  function Sort<T>(le: (T, T) -> bool, s: seq<T>): seq<T> {
    if s == [] then [] else Insert(le, s[0], Sort(le, s[1..]))
  }

  lemma {:induction false} InsertPermutes<T>(le: (T, T) -> bool, x: T, s: seq<T>)
    ensures multiset(Insert(le, x, s)) == multiset{x} + multiset(s)
  {
    if s != [] {
      assert s == [s[0]] + s[1..];
      if !le(x, s[0]) { InsertPermutes(le, x, s[1..]); }
    }
  }

  lemma SortedCons<T(!new)>(le: (T, T) -> bool, x: T, s: seq<T>)
    requires Sorted(le, s)
    requires forall y :: y in s ==> le(x, y)
    ensures Sorted(le, [x] + s)
  {
    var r := [x] + s;
    forall i, j | 0 <= i < j < |r| ensures le(r[i], r[j]) {
      if i == 0 { assert r[j] == s[j - 1]; }
    }
  }

  lemma SortedTail<T(!new)>(le: (T, T) -> bool, s: seq<T>)
    requires Sorted(le, s) && s != []
    ensures Sorted(le, s[1..])
    ensures forall y :: y in s[1..] ==> le(s[0], y)
  {
    forall i, j | 0 <= i < j < |s[1..]| ensures le(s[1..][i], s[1..][j]) {
      assert le(s[i + 1], s[j + 1]);
    }
  }

  lemma {:induction false} InsertSorts<T(!new)>(le: (T, T) -> bool, x: T, s: seq<T>)
    requires TotalPreorder(le) && Sorted(le, s)
    ensures Sorted(le, Insert(le, x, s))
  {
    if s != [] {
      SortedTail(le, s);
      if le(x, s[0]) {
        forall y | y in s ensures le(x, y) {
          if y != s[0] { assert y in s[1..]; }
        }
        SortedCons(le, x, s);
      } else {
        var rest := Insert(le, x, s[1..]);
        InsertSorts(le, x, s[1..]);
        InsertPermutes(le, x, s[1..]);
        forall y | y in rest ensures le(s[0], y) {
          assert y in multiset(rest);
        }
        SortedCons(le, s[0], rest);
      }
    }
  }

  lemma {:induction false} SortPermutes<T(!new)>(le: (T, T) -> bool, s: seq<T>)
    ensures multiset(Sort(le, s)) == multiset(s)
    ensures |Sort(le, s)| == |s|
    ensures forall x :: x in Sort(le, s) <==> x in s
  {
    if s != [] {
      assert s == [s[0]] + s[1..];
      SortPermutes(le, s[1..]);
      InsertPermutes(le, s[0], Sort(le, s[1..]));
    }
    assert |multiset(Sort(le, s))| == |Sort(le, s)| && |multiset(s)| == |s|;
    forall x ensures x in Sort(le, s) <==> x in s {
      assert x in Sort(le, s) <==> x in multiset(Sort(le, s));
    }
  }

  lemma {:induction false} SortSorts<T(!new)>(le: (T, T) -> bool, s: seq<T>)
    requires TotalPreorder(le)
    ensures Sorted(le, Sort(le, s))
  {
    if s != [] {
      SortSorts(le, s[1..]);
      InsertSorts(le, s[0], Sort(le, s[1..]));
    }
  }

  /** On the elements of `s` the order never ties two different values. */
  ghost predicate Distinguishes<T>(le: (T, T) -> bool, s: seq<T>) {
    forall x, y :: x in s && y in s && le(x, y) && le(y, x) ==> x == y
  }

  lemma LeastIsFirst<T(!new)>(le: (T, T) -> bool, a: seq<T>, b: seq<T>)
    requires TotalPreorder(le) && Sorted(le, a) && Sorted(le, b)
    requires a != [] && multiset(a) == multiset(b)
    ensures b != [] && a[0] in b && le(b[0], a[0])
  {
    assert a[0] in multiset(a);
    assert a[0] in multiset(b);
    var i :| 0 <= i < |b| && b[i] == a[0];
    assert le(b[0], b[0]);
  }

  lemma MultisetTail<T>(s: seq<T>)
    requires s != []
    ensures multiset(s[1..]) == multiset(s) - multiset{s[0]}
  {
    assert s == [s[0]] + s[1..];
  }

  /** There is only one sorted arrangement of elements the order tells apart. */
  lemma {:induction false} SortedUnique<T(!new)>(le: (T, T) -> bool, a: seq<T>, b: seq<T>)
    requires TotalPreorder(le) && Sorted(le, a) && Sorted(le, b)
    requires multiset(a) == multiset(b)
    requires Distinguishes(le, a)
    ensures a == b
  {
    if a == [] {
      assert |multiset(b)| == |b|;
    } else {
      LeastIsFirst(le, a, b);
      LeastIsFirst(le, b, a);
      assert b[0] in a && a[0] == b[0];
      SortedTail(le, a);
      SortedTail(le, b);
      MultisetTail(a);
      MultisetTail(b);
      assert Distinguishes(le, a[1..]) by { assert forall x :: x in a[1..] ==> x in a; }
      hide *;
      SortedUnique(le, a[1..], b[1..]);
      assert a == [a[0]] + a[1..] && b == [b[0]] + b[1..];
    }
  }

  /** `order` lists the elements of `s`, each once: one possible iteration of a hash set. */
  ghost predicate Enumerates<T(!new)>(order: seq<T>, s: set<T>) {
    && (forall x :: x in order <==> x in s)
    && (forall i, j :: 0 <= i < j < |order| ==> order[i] != order[j])
  }

  lemma {:induction false} EnumerationMultiset<T(!new)>(order: seq<T>, s: set<T>)
    requires Enumerates(order, s)
    ensures multiset(order) == multiset(s)
    ensures |order| == |s|
  {
    if order == [] {
      assert s == {};
    } else {
      var x, rest := order[0], order[1..];
      assert order == [x] + rest;
      forall y ensures y in rest <==> y in s - {x} {
        if y in rest {
          var i :| 0 <= i < |rest| && rest[i] == y;
          assert order[i + 1] == y;
        }
      }
      EnumerationMultiset(rest, s - {x});
      assert multiset(order) == multiset{x} + multiset(rest);
      assert multiset(s) == multiset{x} + multiset(s - {x});
      assert |s - {x}| == |s| - 1;
    }
  }

  lemma {:induction false} DistinctFromMultiset<T(!new)>(order: seq<T>, s: set<T>)
    requires multiset(order) == multiset(s)
    ensures Enumerates(order, s)
  {
    assert forall x :: x in order <==> x in multiset(order);
    if order != [] {
      var x, rest := order[0], order[1..];
      assert order == [x] + rest;
      assert x in multiset(s);
      assert multiset(rest) == multiset(order) - multiset{x};
      assert multiset(s - {x}) == multiset(s) - multiset{x};
      DistinctFromMultiset(rest, s - {x});
      forall i, j | 0 <= i < j < |order| ensures order[i] != order[j] {
        if i == 0 { assert rest[j - 1] in rest; } else { assert rest[i - 1] != rest[j - 1]; }
      }
    }
  }

  /** Sorting an enumeration gives an enumeration of the same set, in ascending order. */
  lemma SortEnumeration<T(!new)>(le: (T, T) -> bool, order: seq<T>, s: set<T>)
    requires TotalPreorder(le) && Enumerates(order, s)
    ensures Enumerates(Sort(le, order), s) && Sorted(le, Sort(le, order))
  {
    SortSorts(le, order);
    SortPermutes(le, order);
    EnumerationMultiset(order, s);
    DistinctFromMultiset(Sort(le, order), s);
  }
}
