/** The code-point order of strings and insertion sort by a string key, which is
    what Python's `sorted` and `min` use for ids, locators and paths. */
module Sorting {

  predicate LexLess(a: string, b: string)
    decreases |a|
  {
    b != [] && (a == [] || a[0] < b[0] || (a[0] == b[0] && LexLess(a[1..], b[1..])))
  }

  lemma {:induction false} LexIrreflexive(a: string)
    ensures !LexLess(a, a)
    decreases |a|
  {
    if a != [] {
      LexIrreflexive(a[1..]);
    }
  }

  lemma {:induction false} LexTransitive(a: string, b: string, c: string)
    requires LexLess(a, b) && LexLess(b, c)
    ensures LexLess(a, c)
    decreases |a|
  {
    if a != [] && a[0] == b[0] && b[0] == c[0] {
      LexTransitive(a[1..], b[1..], c[1..]);
    }
  }

  lemma {:induction false} LexTotal(a: string, b: string)
    ensures LexLess(a, b) || LexLess(b, a) || a == b
    decreases |a|
  {
    if a != [] && b != [] && a[0] == b[0] {
      LexTotal(a[1..], b[1..]);
      assert a == [a[0]] + a[1..] && b == [b[0]] + b[1..];
    }
  }

  /** b is a proper extension of a, or has the greater character where they first differ. */
  ghost predicate Precedes(a: string, b: string) {
    a < b || exists k :: 0 <= k < |a| && k < |b| && a[..k] == b[..k] && a[k] < b[k]
  }

  lemma {:induction false} LexLessExact(a: string, b: string)
    ensures LexLess(a, b) <==> Precedes(a, b)
    decreases |a|
  {
    if a != [] && b != [] && a[0] == b[0] {
      LexLessExact(a[1..], b[1..]);
      assert a == [a[0]] + a[1..] && b == [b[0]] + b[1..];
      if k :| 0 <= k < |a| && k < |b| && a[..k] == b[..k] && a[k] < b[k] {
        assert a[1..][..k - 1] == a[..k][1..] && b[1..][..k - 1] == b[..k][1..];
      }
      if k :| 0 <= k < |a[1..]| && k < |b[1..]| && a[1..][..k] == b[1..][..k] && a[1..][k] < b[1..][k] {
        assert a[..k + 1] == [a[0]] + a[1..][..k] && b[..k + 1] == [b[0]] + b[1..][..k];
      }
    } else if a != [] && b != [] && a[0] < b[0] {
      assert a[..0] == b[..0];
    }
  }

  ghost predicate StrictlySorted<T>(xs: seq<T>, key: T -> string) {
    forall i, j :: 0 <= i < j < |xs| ==> LexLess(key(xs[i]), key(xs[j]))
  }

  ghost predicate DistinctKeys<T>(xs: seq<T>, key: T -> string) {
    forall i, j :: 0 <= i < j < |xs| ==> key(xs[i]) != key(xs[j])
  }

  function Insert<T>(x: T, xs: seq<T>, key: T -> string): (r: seq<T>)
    ensures multiset(r) == multiset(xs) + multiset{x}
    ensures |r| == |xs| + 1
  {
    if xs == [] then [x]
    else if LexLess(key(xs[0]), key(x)) then
      assert xs == [xs[0]] + xs[1..];
      [xs[0]] + Insert(x, xs[1..], key)
    else [x] + xs
  }

  function SortBy<T>(xs: seq<T>, key: T -> string): (r: seq<T>)
    ensures multiset(r) == multiset(xs)
    ensures |r| == |xs|
  {
    if xs == [] then []
    else
      assert xs == [xs[0]] + xs[1..];
      Insert(xs[0], SortBy(xs[1..], key), key)
  }

  lemma {:induction false} InsertSorts<T>(x: T, xs: seq<T>, key: T -> string)
    requires StrictlySorted(xs, key)
    requires forall i :: 0 <= i < |xs| ==> key(xs[i]) != key(x)
    ensures StrictlySorted(Insert(x, xs, key), key)
  {
    if xs != [] {
      if LexLess(key(xs[0]), key(x)) {
        var rest := Insert(x, xs[1..], key);
        InsertSorts(x, xs[1..], key);
        forall j | 0 <= j < |rest| ensures LexLess(key(xs[0]), key(rest[j])) {
          assert rest[j] in multiset(rest);
          if rest[j] != x {
            assert rest[j] in xs[1..];
          }
        }
      } else {
        LexTotal(key(x), key(xs[0]));
        forall j | 0 < j < |xs| ensures LexLess(key(x), key(xs[j])) {
          LexTransitive(key(x), key(xs[0]), key(xs[j]));
        }
      }
    }
  }

  lemma {:induction false} SortBySorts<T>(xs: seq<T>, key: T -> string)
    requires DistinctKeys(xs, key)
    ensures StrictlySorted(SortBy(xs, key), key)
  {
    if xs != [] {
      var rest := SortBy(xs[1..], key);
      SortBySorts(xs[1..], key);
      forall i | 0 <= i < |rest| ensures key(rest[i]) != key(xs[0]) {
        assert rest[i] in multiset(xs[1..]);
        var j :| 0 <= j < |xs[1..]| && xs[1..][j] == rest[i];
        assert xs[1..][j] == xs[j + 1];
      }
      InsertSorts(xs[0], rest, key);
    }
  }

  /** A strictly sorted listing is determined by the elements it lists. */
  lemma {:induction false} SortedUnique<T>(xs: seq<T>, ys: seq<T>, key: T -> string)
    requires StrictlySorted(xs, key) && StrictlySorted(ys, key)
    requires forall x :: x in xs <==> x in ys
    ensures xs == ys
  {
    SameMembersSameEmptiness(xs, ys);
    if xs != [] {
      assert xs[0] in ys;
      var j :| 0 <= j < |ys| && ys[j] == xs[0];
      assert ys[0] in xs;
      var k :| 0 <= k < |xs| && xs[k] == ys[0];
      if j != 0 && k != 0 {
        LexTransitive(key(xs[0]), key(ys[0]), key(xs[0]));
        LexIrreflexive(key(xs[0]));
      }
      assert xs[0] == ys[0];
      forall x ensures x in xs[1..] <==> x in ys[1..] {
        if x in xs[1..] { TailKeepsMembers(xs, ys, key, x); }
        if x in ys[1..] { TailKeepsMembers(ys, xs, key, x); }
      }
      SortedUnique(xs[1..], ys[1..], key);
      assert xs == [xs[0]] + xs[1..] && ys == [ys[0]] + ys[1..];
    }
  }

  lemma SameMembersSameEmptiness<T>(xs: seq<T>, ys: seq<T>)
    requires forall x :: x in xs <==> x in ys
    ensures xs == [] <==> ys == []
  {
    if xs != [] { assert xs[0] in xs; }
    if ys != [] { assert ys[0] in ys; }
  }

  lemma TailKeepsMembers<T>(xs: seq<T>, ys: seq<T>, key: T -> string, x: T)
    requires xs != [] && ys != [] && xs[0] == ys[0]
    requires StrictlySorted(xs, key)
    requires x in xs[1..] && x in ys
    ensures x in ys[1..]
  {
    var i :| 0 <= i < |xs[1..]| && xs[1..][i] == x;
    assert LexLess(key(xs[0]), key(xs[i + 1]));
    LexIrreflexive(key(x));
    var j :| 0 <= j < |ys| && ys[j] == x;
    assert j != 0;
    assert ys[1..][j - 1] == x;
  }

  lemma SortByMembers<T>(xs: seq<T>, key: T -> string)
    ensures forall x :: x in SortBy(xs, key) <==> x in xs
  {
    var sorted := SortBy(xs, key);
    forall x
      ensures x in sorted <==> x in xs
    {
      assert x in sorted <==> x in multiset(sorted);
    }
  }

  /** Two listings of the same elements under distinct keys sort to the same list. */
  lemma SortByIgnoresOrder<T>(xs: seq<T>, ys: seq<T>, key: T -> string)
    requires DistinctKeys(xs, key) && DistinctKeys(ys, key)
    requires forall x :: x in xs <==> x in ys
    ensures SortBy(xs, key) == SortBy(ys, key)
  {
    SortBySorts(xs, key);
    SortBySorts(ys, key);
    SortByMembers(xs, key);
    SortByMembers(ys, key);
    SortedUnique(SortBy(xs, key), SortBy(ys, key), key);
  }
}
