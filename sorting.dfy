/** Python's `sorted(items, key=..., reverse=...)`: a stable sort by a key,
    where keys compare the way Python compares strings, integers and
    booleans. A key is written as a sequence of integers: the code points of
    a string, `[i]` for an integer, `[0]`/`[1]` for `False`/`True`. Python
    then orders keys lexicographically, which is `LexLess` below. With
    `reverse=True` Python still keeps equal elements in their original
    order, so the descending sort here is stable too. */
module Sorting {

  // ------------------------------------------------------------ key order

  /** Python's `a < b` on sequences: the first difference decides, and a proper prefix is smaller. */
  predicate LexLess(a: seq<int>, b: seq<int>)
  {
    if |a| == 0 then |b| > 0
    else if |b| == 0 then false
    else if a[0] != b[0] then a[0] < b[0]
    else LexLess(a[1..], b[1..])
  }

  lemma {:induction false} LexIrreflexive(a: seq<int>)
    ensures !LexLess(a, a)
  {
    if |a| > 0 {
      LexIrreflexive(a[1..]);
    }
  }

  lemma {:induction false} LexTransitive(a: seq<int>, b: seq<int>, c: seq<int>)
    requires LexLess(a, b) && LexLess(b, c)
    ensures LexLess(a, c)
  {
    if |a| > 0 && |b| > 0 && |c| > 0 && a[0] == b[0] && b[0] == c[0] {
      LexTransitive(a[1..], b[1..], c[1..]);
    }
  }

  /** Any two different keys are ordered one way or the other. */
  lemma {:induction false} LexTotal(a: seq<int>, b: seq<int>)
    ensures a == b || LexLess(a, b) || LexLess(b, a)
  {
    if |a| > 0 && |b| > 0 && a[0] == b[0] {
      LexTotal(a[1..], b[1..]);
      if a[1..] == b[1..] {
        assert a == [a[0]] + a[1..] && b == [b[0]] + b[1..];
      }
    }
  }

  /** `a` must be placed before `b` by a sort that is ascending, or descending when `descending`. */
  predicate Precedes(a: seq<int>, b: seq<int>, descending: bool)
  {
    if descending then LexLess(b, a) else LexLess(a, b)
  }

  lemma PrecedesIrreflexive(a: seq<int>, descending: bool)
    ensures !Precedes(a, a, descending)
  {
    LexIrreflexive(a);
  }

  lemma PrecedesTransitive(a: seq<int>, b: seq<int>, c: seq<int>, descending: bool)
    requires Precedes(a, b, descending) && Precedes(b, c, descending)
    ensures Precedes(a, c, descending)
  {
    if descending {
      LexTransitive(c, b, a);
    } else {
      LexTransitive(a, b, c);
    }
  }

  /** The sort key of a Python string: its code points. */
  function StrKey(s: string): (k: seq<int>)
    ensures |k| == |s|
    ensures forall i :: 0 <= i < |s| ==> k[i] == s[i] as int
  {
    seq(|s|, i requires 0 <= i < |s| => s[i] as int)
  }

  lemma StrKeyInjective(a: string, b: string)
    requires StrKey(a) == StrKey(b)
    ensures a == b
  {
    assert |a| == |b|;
    forall i | 0 <= i < |a| ensures a[i] == b[i] {
      assert StrKey(a)[i] == StrKey(b)[i];
    }
  }

  /** The sort key of a Python boolean: `False < True`. */
  function BoolKey(b: bool): seq<int>
  {
    if b then [1] else [0]
  }

  // ------------------------------------------------------- sorted, stable

  predicate SortedBy<T>(r: seq<T>, key: T -> seq<int>, descending: bool)
  {
    forall i, j :: 0 <= i < j < |r| ==> !Precedes(key(r[j]), key(r[i]), descending)
  }

  /** Sorted by `key1`, and among elements with equal `key1`, sorted by `key2`. */
  predicate SortedThenBy<T>(r: seq<T>, key1: T -> seq<int>, d1: bool, key2: T -> seq<int>, d2: bool)
  {
    forall i, j :: 0 <= i < j < |r| ==>
      !Precedes(key1(r[j]), key1(r[i]), d1) &&
      (key1(r[i]) == key1(r[j]) ==> !Precedes(key2(r[j]), key2(r[i]), d2))
  }

  /** The elements of `s` whose key is `k`, in the order of `s`. */
  function KeyClass<T>(s: seq<T>, key: T -> seq<int>, k: seq<int>): seq<T>
  {
    if s == [] then []
    else (if key(s[0]) == k then [s[0]] else []) + KeyClass(s[1..], key, k)
  }

  lemma {:induction false} KeyClassConcat<T>(a: seq<T>, b: seq<T>, key: T -> seq<int>, k: seq<int>)
    ensures KeyClass(a + b, key, k) == KeyClass(a, key, k) + KeyClass(b, key, k)
  {
    if a != [] {
      var head := if key(a[0]) == k then [a[0]] else [];
      assert (a + b)[0] == a[0] && (a + b)[1..] == a[1..] + b;
      assert KeyClass(a + b, key, k) == head + KeyClass(a[1..] + b, key, k);
      KeyClassConcat(a[1..], b, key, k);
      assert KeyClass(a, key, k) == head + KeyClass(a[1..], key, k);
    } else {
      assert a + b == b;
    }
  }

  lemma {:induction false} KeyClassNone<T>(s: seq<T>, key: T -> seq<int>, k: seq<int>)
    requires forall y :: y in s ==> key(y) != k
    ensures KeyClass(s, key, k) == []
  {
    if s != [] {
      KeyClassNone(s[1..], key, k);
    }
  }

  // ------------------------------------------------------- the sort itself

  /** Place `x` before the first element it strictly precedes: after every element with an equal key. */
  function Insert<T>(t: seq<T>, x: T, key: T -> seq<int>, descending: bool): (r: seq<T>)
    ensures multiset(r) == multiset(t) + multiset{x}
  {
    if t == [] then [x]
    else if Precedes(key(x), key(t[0]), descending) then [x] + t
    else
      assert t == [t[0]] + t[1..];
      [t[0]] + Insert(t[1..], x, key, descending)
  }

  /** `sorted(s, key=key, reverse=descending)`: insertion sort, taking the elements in input order. */
  function SortBy<T>(s: seq<T>, key: T -> seq<int>, descending: bool): (r: seq<T>)
    ensures multiset(r) == multiset(s)
  {
    if s == [] then []
    else
      assert s == s[..|s| - 1] + [s[|s| - 1]];
      Insert(SortBy(s[..|s| - 1], key, descending), s[|s| - 1], key, descending)
  }

  lemma SortByLength<T>(s: seq<T>, key: T -> seq<int>, descending: bool)
    ensures |SortBy(s, key, descending)| == |s|
  {
    assert |multiset(SortBy(s, key, descending))| == |multiset(s)|;
  }

  /** `x` placed in front of a `u` whose head it strictly precedes keeps the order. */
  lemma InsertThenByFront<T>(u: seq<T>, x: T, key1: T -> seq<int>, d1: bool, key2: T -> seq<int>, d2: bool)
    requires u != [] && SortedThenBy(u, key1, d1, key2, d2)
    requires Precedes(key1(x), key1(u[0]), d1)
    ensures SortedThenBy([x] + u, key1, d1, key2, d2)
  {
    var r := [x] + u;
    forall i, j | 0 <= i < j < |r|
      ensures !Precedes(key1(r[j]), key1(r[i]), d1) &&
        (key1(r[i]) == key1(r[j]) ==> !Precedes(key2(r[j]), key2(r[i]), d2))
    {
      var y := u[j - 1];
      assert r[j] == y;
      if i > 0 {
        assert r[i] == u[i - 1];
      } else {
        if j - 1 > 0 {
          assert !Precedes(key1(y), key1(u[0]), d1);
        } else {
          PrecedesIrreflexive(key1(u[0]), d1);
        }
        if Precedes(key1(y), key1(x), d1) {
          PrecedesTransitive(key1(y), key1(x), key1(u[0]), d1);
        }
      }
    }
  }

  /** `u[0]` kept in front of an ordered `ins` made of `u[1..]` and `x` keeps the order. */
  lemma InsertThenByBehind<T>(u: seq<T>, ins: seq<T>, x: T, key1: T -> seq<int>, d1: bool, key2: T -> seq<int>, d2: bool)
    requires u != [] && SortedThenBy(u, key1, d1, key2, d2)
    requires !Precedes(key1(x), key1(u[0]), d1)
    requires !Precedes(key2(x), key2(u[0]), d2)
    requires SortedThenBy(ins, key1, d1, key2, d2)
    requires multiset(ins) == multiset(u[1..]) + multiset{x}
    ensures SortedThenBy([u[0]] + ins, key1, d1, key2, d2)
  {
    var r := [u[0]] + ins;
    forall i, j | 0 <= i < j < |r|
      ensures !Precedes(key1(r[j]), key1(r[i]), d1) &&
        (key1(r[i]) == key1(r[j]) ==> !Precedes(key2(r[j]), key2(r[i]), d2))
    {
      var y := ins[j - 1];
      assert r[j] == y;
      if i > 0 {
        assert r[i] == ins[i - 1];
      } else {
        assert y in multiset(ins);
        if y != x {
          assert y in multiset(u[1..]);
          var k :| 0 <= k < |u[1..]| && u[1..][k] == y;
          assert u[k + 1] == y;
        }
      }
    }
  }

  lemma SortedThenByTail<T>(u: seq<T>, key1: T -> seq<int>, d1: bool, key2: T -> seq<int>, d2: bool)
    requires u != [] && SortedThenBy(u, key1, d1, key2, d2)
    ensures SortedThenBy(u[1..], key1, d1, key2, d2)
  {
    forall i, j | 0 <= i < j < |u[1..]|
      ensures !Precedes(key1(u[1..][j]), key1(u[1..][i]), d1) &&
        (key1(u[1..][i]) == key1(u[1..][j]) ==> !Precedes(key2(u[1..][j]), key2(u[1..][i]), d2))
    {
      assert u[1..][i] == u[i + 1] && u[1..][j] == u[j + 1];
    }
  }

  lemma InsertUnfoldFront<T>(t: seq<T>, x: T, key: T -> seq<int>, descending: bool)
    requires t != [] && Precedes(key(x), key(t[0]), descending)
    ensures Insert(t, x, key, descending) == [x] + t
  {
  }

  lemma {:induction false} InsertThenBy<T>(u: seq<T>, x: T, key1: T -> seq<int>, d1: bool, key2: T -> seq<int>, d2: bool)
    requires SortedThenBy(u, key1, d1, key2, d2)
    requires forall y :: y in u ==> !Precedes(key2(x), key2(y), d2)
    ensures SortedThenBy(Insert(u, x, key1, d1), key1, d1, key2, d2)
  {
    if u != [] {
      if Precedes(key1(x), key1(u[0]), d1) {
        InsertUnfoldFront(u, x, key1, d1);
        InsertThenByFront(u, x, key1, d1, key2, d2);
      } else {
        SortedThenByTail(u, key1, d1, key2, d2);
        assert forall y :: y in u[1..] ==> y in u;
        InsertThenBy(u[1..], x, key1, d1, key2, d2);
        InsertUnfoldBehind(u, x, key1, d1);
        assert u[0] in u;
        InsertThenByBehind(u, Insert(u[1..], x, key1, d1), x, key1, d1, key2, d2);
      }
    }
  }

  /** Sorting a sequence already sorted by `key2` by `key1` leaves the `key2` order
      inside each group of equal `key1`: this is why Python sorts in two passes. */
  lemma {:induction false} SortByThenBy<T>(s: seq<T>, key1: T -> seq<int>, d1: bool, key2: T -> seq<int>, d2: bool)
    requires SortedBy(s, key2, d2)
    ensures SortedThenBy(SortBy(s, key1, d1), key1, d1, key2, d2)
  {
    if s != [] {
      var init, last := s[..|s| - 1], s[|s| - 1];
      assert SortedBy(init, key2, d2) by {
        forall i, j | 0 <= i < j < |init| ensures !Precedes(key2(init[j]), key2(init[i]), d2) {
          assert init[i] == s[i] && init[j] == s[j];
        }
      }
      SortByThenBy(init, key1, d1, key2, d2);
      var u := SortBy(init, key1, d1);
      forall y | y in u ensures !Precedes(key2(last), key2(y), d2) {
        assert y in multiset(u);
        assert y in multiset(init);
        var k :| 0 <= k < |init| && init[k] == y;
        assert s[k] == y;
      }
      InsertThenBy(u, last, key1, d1, key2, d2);
    }
  }

  /** The result of the sort is ordered by its key. */
  lemma SortBySorted<T>(s: seq<T>, key: T -> seq<int>, descending: bool)
    ensures SortedBy(SortBy(s, key, descending), key, descending)
  {
    var none := (x: T) => [];
    assert SortedBy(s, none, false) by {
      LexIrreflexive([]);
    }
    SortByThenBy(s, key, descending, none, false);
  }

  lemma SortedTail<T>(t: seq<T>, key: T -> seq<int>, descending: bool)
    requires t != [] && SortedBy(t, key, descending)
    ensures SortedBy(t[1..], key, descending)
  {
    forall i, j | 0 <= i < j < |t[1..]| ensures !Precedes(key(t[1..][j]), key(t[1..][i]), descending) {
      assert t[1..][i] == t[i + 1] && t[1..][j] == t[j + 1];
    }
  }

  /** Nothing in a sorted `t` has the key of an `x` that strictly precedes `t[0]`. */
  lemma NoneEqualBelowHead<T>(t: seq<T>, x: T, key: T -> seq<int>, descending: bool)
    requires t != [] && SortedBy(t, key, descending)
    requires Precedes(key(x), key(t[0]), descending)
    ensures KeyClass(t, key, key(x)) == []
  {
    forall y | y in t ensures key(y) != key(x) {
      var j :| 0 <= j < |t| && t[j] == y;
      if j > 0 {
        assert !Precedes(key(t[j]), key(t[0]), descending);
      } else {
        PrecedesIrreflexive(key(t[0]), descending);
      }
    }
    KeyClassNone(t, key, key(x));
  }

  lemma KeyClassCons<T>(x: T, t: seq<T>, key: T -> seq<int>, k: seq<int>)
    ensures KeyClass([x] + t, key, k) == (if key(x) == k then [x] else []) + KeyClass(t, key, k)
  {
    assert ([x] + t)[0] == x && ([x] + t)[1..] == t;
  }

  lemma InsertKeyClassFront<T>(t: seq<T>, x: T, key: T -> seq<int>, descending: bool, k: seq<int>)
    requires t != [] && SortedBy(t, key, descending)
    requires Precedes(key(x), key(t[0]), descending)
    ensures KeyClass(Insert(t, x, key, descending), key, k) ==
            KeyClass(t, key, k) + (if key(x) == k then [x] else [])
  {
    assert Insert(t, x, key, descending) == [x] + t;
    KeyClassCons(x, t, key, k);
    if key(x) == k {
      NoneEqualBelowHead(t, x, key, descending);
    }
  }

  lemma InsertUnfoldBehind<T>(t: seq<T>, x: T, key: T -> seq<int>, descending: bool)
    requires t != [] && !Precedes(key(x), key(t[0]), descending)
    ensures Insert(t, x, key, descending) == [t[0]] + Insert(t[1..], x, key, descending)
  {
  }

  lemma KeyClassPrepend<T>(y: T, u: seq<T>, v: seq<T>, key: T -> seq<int>, k: seq<int>, extra: seq<T>)
    requires KeyClass(v, key, k) == KeyClass(u, key, k) + extra
    ensures KeyClass([y] + v, key, k) == KeyClass([y] + u, key, k) + extra
  {
    var head := if key(y) == k then [y] else [];
    KeyClassCons(y, v, key, k);
    KeyClassCons(y, u, key, k);
    assert head + (KeyClass(u, key, k) + extra) == (head + KeyClass(u, key, k)) + extra;
  }

  lemma InsertKeyClassBehind<T>(t: seq<T>, x: T, key: T -> seq<int>, descending: bool, k: seq<int>)
    requires t != [] && !Precedes(key(x), key(t[0]), descending)
    requires KeyClass(Insert(t[1..], x, key, descending), key, k) ==
             KeyClass(t[1..], key, k) + (if key(x) == k then [x] else [])
    ensures KeyClass(Insert(t, x, key, descending), key, k) ==
            KeyClass(t, key, k) + (if key(x) == k then [x] else [])
  {
    InsertUnfoldBehind(t, x, key, descending);
    KeyClassPrepend(t[0], t[1..], Insert(t[1..], x, key, descending), key, k, if key(x) == k then [x] else []);
    assert [t[0]] + t[1..] == t;
  }

  lemma {:induction false} InsertKeyClass<T>(t: seq<T>, x: T, key: T -> seq<int>, descending: bool, k: seq<int>)
    requires SortedBy(t, key, descending)
    ensures KeyClass(Insert(t, x, key, descending), key, k) ==
            KeyClass(t, key, k) + (if key(x) == k then [x] else [])
  {
    if t == [] {
      KeyClassCons(x, [], key, k);
    } else if Precedes(key(x), key(t[0]), descending) {
      InsertKeyClassFront(t, x, key, descending, k);
    } else {
      SortedTail(t, key, descending);
      InsertKeyClass(t[1..], x, key, descending, k);
      InsertKeyClassBehind(t, x, key, descending, k);
    }
  }

  lemma SortByUnfold<T>(s: seq<T>, key: T -> seq<int>, descending: bool)
    requires s != []
    ensures SortBy(s, key, descending) == Insert(SortBy(s[..|s| - 1], key, descending), s[|s| - 1], key, descending)
  {
  }

  lemma KeyClassSnoc<T>(s: seq<T>, key: T -> seq<int>, k: seq<int>)
    requires s != []
    ensures KeyClass(s, key, k) ==
            KeyClass(s[..|s| - 1], key, k) + (if key(s[|s| - 1]) == k then [s[|s| - 1]] else [])
  {
    var init, last := s[..|s| - 1], s[|s| - 1];
    assert s == init + [last];
    KeyClassConcat(init, [last], key, k);
    KeyClassCons(last, [], key, k);
    assert [last] + [] == [last];
  }

  /** The sort is stable: the elements sharing any one key keep their input order. */
  lemma {:induction false} SortByStable<T>(s: seq<T>, key: T -> seq<int>, descending: bool, k: seq<int>)
    ensures KeyClass(SortBy(s, key, descending), key, k) == KeyClass(s, key, k)
  {
    if s != [] {
      var init, last := s[..|s| - 1], s[|s| - 1];
      SortByStable(init, key, descending, k);
      SortBySorted(init, key, descending);
      InsertKeyClass(SortBy(init, key, descending), last, key, descending, k);
      SortByUnfold(s, key, descending);
      KeyClassSnoc(s, key, k);
    }
  }
}
