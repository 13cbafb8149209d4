/** Strict total orders, the sorted listing of a finite set, and the code-point
    order in which the program compares text. */
module Ordering {
  ghost predicate StrictTotal<T(!new)>(less: (T, T) -> bool) {
    && (forall x :: !less(x, x))
    && (forall x, y, z :: less(x, y) && less(y, z) ==> less(x, z))
    && (forall x, y :: x != y ==> less(x, y) || less(y, x))
  }

  ghost predicate Ascending<T>(less: (T, T) -> bool, s: seq<T>) {
    forall i, j | 0 <= i < j < |s| :: less(s[i], s[j])
  }

  ghost predicate IsLeast<T>(less: (T, T) -> bool, s: set<T>, x: T) {
    x in s && forall y | y in s && y != x :: less(x, y)
  }

  lemma LeastExists<T(!new)>(less: (T, T) -> bool, s: set<T>)
    requires StrictTotal(less)
    requires s != {}
    ensures exists x :: IsLeast(less, s, x)
  {
    var a :| a in s;
    if s == {a} {
      assert IsLeast(less, s, a);
    } else {
      LeastExists(less, s - {a});
      var b :| IsLeast(less, s - {a}, b);
      if less(a, b) {
        assert forall y | y in s && y != a :: y == b || less(b, y);
        assert IsLeast(less, s, a);
      } else {
        assert IsLeast(less, s, b);
      }
    }
  }

  /** The elements of a set in ascending order. */
  function Sort<T(!new)>(less: (T, T) -> bool, s: set<T>): seq<T>
    requires StrictTotal(less)
  {
    if s == {} then []
    else
      LeastExists(less, s);
      assert forall x | IsLeast(less, s, x) :: x in s && forall y | y in s && y != x :: less(x, y);
      var x :| x in s && forall y | y in s && y != x :: less(x, y);
      [x] + Sort(less, s - {x})
  }

  ghost predicate Lists<T>(r: seq<T>, s: set<T>) {
    && |r| == |s|
    && (forall i | 0 <= i < |r| :: r[i] in s)
    && (forall x | x in s :: x in r)
  }

  lemma {:induction false} SortLists<T(!new)>(less: (T, T) -> bool, s: set<T>)
    requires StrictTotal(less)
    ensures Ascending(less, Sort(less, s)) && Lists(Sort(less, s), s)
  {
    if s != {} {
      var r := Sort(less, s);
      LeastExists(less, s);
      SortLists(less, s - {r[0]});
      assert r == [r[0]] + Sort(less, s - {r[0]});
      forall x | x in s
        ensures x in r
      {
        assert x == r[0] || x in s - {r[0]};
      }
    }
  }

  lemma HasElement<T>(s: seq<T>)
    ensures s == [] || exists x :: x in s
  {
    assert s == [] || s[0] in s;
  }

  /** A set has only one ascending listing. */
  lemma {:induction false} AscendingUnique<T(!new)>(less: (T, T) -> bool, a: seq<T>, b: seq<T>)
    requires StrictTotal(less)
    requires Ascending(less, a) && Ascending(less, b)
    requires forall x :: x in a <==> x in b
    ensures a == b
  {
    if a == [] {
      HasElement(b);
    } else {
      assert a[0] in b;
      assert b[0] in a;
      assert a[0] == b[0];
      assert a == [a[0]] + a[1..] && b == [b[0]] + b[1..];
      forall x
        ensures x in a[1..] <==> x in b[1..]
      {
        assert a[0] !in a[1..] && b[0] !in b[1..];
        assert x in a <==> x == a[0] || x in a[1..];
        assert x in b <==> x == b[0] || x in b[1..];
      }
      AscendingUnique(less, a[1..], b[1..]);
    }
  }

  lemma SortIsTheListing<T(!new)>(less: (T, T) -> bool, s: set<T>, a: seq<T>)
    requires StrictTotal(less)
    requires Ascending(less, a) && Lists(a, s)
    ensures a == Sort(less, s)
  {
    SortLists(less, s);
    AscendingUnique(less, a, Sort(less, s));
  }

  predicate LexLess(a: string, b: string) {
    if b == "" then false
    else if a == "" then true
    else a[0] < b[0] || (a[0] == b[0] && LexLess(a[1..], b[1..]))
  }

  lemma {:induction false} LexTrichotomy(a: string, b: string)
    ensures !LexLess(a, a)
    ensures a != b ==> LexLess(a, b) || LexLess(b, a)
  {
    if a != "" {
      if b == "" {
        LexTrichotomy(a[1..], b);
      } else {
        LexTrichotomy(a[1..], b[1..]);
        assert a == [a[0]] + a[1..] && b == [b[0]] + b[1..];
      }
    }
  }

  lemma {:induction false} LexTransitive(a: string, b: string, c: string)
    requires LexLess(a, b) && LexLess(b, c)
    ensures LexLess(a, c)
  {
    if a != "" && a[0] == b[0] == c[0] {
      LexTransitive(a[1..], b[1..], c[1..]);
    }
  }

  lemma LexIsStrictTotal()
    ensures StrictTotal(LexLess)
  {
    forall a, b ensures !LexLess(a, a) && (a != b ==> LexLess(a, b) || LexLess(b, a)) {
      LexTrichotomy(a, b);
    }
    forall a, b, c | LexLess(a, b) && LexLess(b, c) ensures LexLess(a, c) {
      LexTransitive(a, b, c);
    }
  }

  /** The listing of a set of names in code-point order. */
  function SortNames(s: set<string>): seq<string> {
    LexIsStrictTotal();
    Sort(LexLess, s)
  }

  lemma SortNamesLists(s: set<string>)
    ensures Ascending(LexLess, SortNames(s)) && Lists(SortNames(s), s)
  {
    LexIsStrictTotal();
    SortLists(LexLess, s);
  }

  lemma SortNamesMembers(s: set<string>)
    ensures Lists(SortNames(s), s)
  {
    SortNamesLists(s);
  }

  lemma SortNamesUnique(s: set<string>, a: seq<string>)
    requires Ascending(LexLess, a) && Lists(a, s)
    ensures a == SortNames(s)
  {
    LexIsStrictTotal();
    SortIsTheListing(LexLess, s, a);
  }
}
