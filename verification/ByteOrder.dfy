/** The byte-wise lexicographic order on names, the order of every serialised tree. */
module ByteOrder {
  import opened Objects
  import opened Sorting

  predicate LexLe(a: Bytes, b: Bytes) {
    |a| == 0 || (|b| > 0 && (a[0] < b[0] || (a[0] == b[0] && LexLe(a[1..], b[1..]))))
  }

  /** A proper prefix comes first; otherwise the first byte that differs decides, the smaller one first. */
  ghost predicate ComesBefore(a: Bytes, b: Bytes) {
    a < b || exists k :: 0 <= k < |a| && k < |b| && a[..k] == b[..k] && a[k] < b[k]
  }

  ghost predicate InOrder(names: seq<Path>) {
    forall i, j :: 0 <= i < j < |names| ==> ComesBefore(names[i], names[j])
  }

  lemma {:induction false} LexLeExactly(a: Bytes, b: Bytes)
    ensures LexLe(a, b) <==> a == b || ComesBefore(a, b)
  {
    if |a| > 0 && |b| > 0 {
      LexLeExactly(a[1..], b[1..]);
      assert a == [a[0]] + a[1..] && b == [b[0]] + b[1..];
      if a[0] < b[0] { assert a[..0] == b[..0]; }
      if a[0] == b[0] && ComesBefore(a[1..], b[1..]) && !(a[1..] < b[1..]) {
        var k :| 0 <= k < |a[1..]| && k < |b[1..]| && a[1..][..k] == b[1..][..k] && a[1..][k] < b[1..][k];
        assert a[..k + 1] == [a[0]] + a[1..][..k] && b[..k + 1] == [b[0]] + b[1..][..k];
      }
      if ComesBefore(a, b) && !(a < b) {
        var k :| 0 <= k < |a| && k < |b| && a[..k] == b[..k] && a[k] < b[k];
        if k > 0 {
          assert a[..k][0] == b[..k][0];
          assert a[1..][..k - 1] == a[..k][1..] && b[1..][..k - 1] == b[..k][1..];
        }
      }
    }
  }

  lemma {:induction false} LexTotal(a: Bytes, b: Bytes)
    ensures LexLe(a, b) || LexLe(b, a)
  {
    if |a| > 0 && |b| > 0 { LexTotal(a[1..], b[1..]); }
  }

  lemma {:induction false} LexAntisymmetric(a: Bytes, b: Bytes)
    requires LexLe(a, b) && LexLe(b, a)
    ensures a == b
  {
    if |a| > 0 {
      LexAntisymmetric(a[1..], b[1..]);
      assert a == [a[0]] + a[1..] && b == [b[0]] + b[1..];
    }
  }

  lemma {:induction false} LexTransitive(a: Bytes, b: Bytes, c: Bytes)
    requires LexLe(a, b) && LexLe(b, c)
    ensures LexLe(a, c)
  {
    if |a| > 0 && a[0] == b[0] == c[0] {
      LexTransitive(a[1..], b[1..], c[1..]);
    }
  }

  lemma LexIsPreorder()
    ensures TotalPreorder(LexLe)
  {
    forall x, y ensures LexLe(x, y) || LexLe(y, x) { LexTotal(x, y); }
    forall x, y, z | LexLe(x, y) && LexLe(y, z) ensures LexLe(x, z) { LexTransitive(x, y, z); }
  }

  lemma LexDistinguishes(s: seq<Path>)
    ensures Distinguishes(LexLe, s)
  {
    forall x, y | x in s && y in s && LexLe(x, y) && LexLe(y, x) ensures x == y {
      LexAntisymmetric(x, y);
    }
  }

  function SortNames(names: seq<Path>): seq<Path> {
    Sort(LexLe, names)
  }

  lemma LexAntisymmetricEverywhere()
    ensures forall a, b :: LexLe(a, b) && LexLe(b, a) ==> a == b
  {
    forall a, b | LexLe(a, b) && LexLe(b, a) ensures a == b { LexAntisymmetric(a, b); }
  }

  lemma {:induction false} LeastExists(s: set<Path>) returns (n: Path)
    requires s != {}
    ensures n in s && forall m :: m in s ==> LexLe(n, m)
  {
    n :| n in s;
    LexTotal(n, n);
    if s != {n} {
      var m := LeastExists(s - {n});
      LexTotal(n, m);
      if LexLe(n, m) {
        forall k | k in s ensures LexLe(n, k) { if k != n { LexTransitive(n, m, k); } }
      } else {
        n := m;
      }
    }
  }

  lemma LeastExistsSomewhere(s: set<Path>)
    requires s != {}
    ensures exists n :: n in s && forall m :: m in s ==> LexLe(n, m)
  {
    var _ := LeastExists(s);
  }

  function Least(s: set<Path>): (n: Path)
    requires s != {}
    ensures n in s && forall m :: m in s ==> LexLe(n, m)
  {
    LeastExistsSomewhere(s);
    LexAntisymmetricEverywhere();
    var n :| n in s && forall m :: m in s ==> LexLe(n, m);
    n
  }

  /** The names of `s` in ascending order. */
  function SortedNames(s: set<Path>): (r: seq<Path>)
    ensures Enumerates(r, s)
  {
    if s == {} then [] else [Least(s)] + SortedNames(s - {Least(s)})
  }

  lemma {:induction false} SortedNamesAscend(s: set<Path>)
    ensures Sorted(LexLe, SortedNames(s))
  {
    if s != {} {
      SortedNamesAscend(s - {Least(s)});
      SortedCons(LexLe, Least(s), SortedNames(s - {Least(s)}));
    }
  }

  /** The list ascends byte by byte. */
  lemma SortedNamesInOrder(s: set<Path>)
    ensures InOrder(SortedNames(s))
  {
    var names := SortedNames(s);
    SortedNamesAscend(s);
    forall i, j | 0 <= i < j < |names| ensures ComesBefore(names[i], names[j]) {
      LexLeExactly(names[i], names[j]);
    }
  }

  /** Whatever order a hash map hands out its keys, the sorted list is the same. */
  lemma SortedNamesCanonical(order: seq<Path>, s: set<Path>)
    requires Enumerates(order, s)
    ensures SortNames(order) == SortedNames(s)
  {
    LexIsPreorder();
    LexDistinguishes(SortNames(order));
    SortEnumeration(LexLe, order, s);
    SortedNamesAscend(s);
    EnumerationMultiset(SortNames(order), s);
    EnumerationMultiset(SortedNames(s), s);
    SortedUnique(LexLe, SortNames(order), SortedNames(s));
  }
}
