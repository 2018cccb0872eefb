/** `sorted(...)` and `itertools.combinations(xs, 2)`, which the pair loops of the
    similarity and benchmark scripts are built on. */
module Combinations {
  import opened Strings
  import Thesaurus

  // ----- orders -----

  /** `lt` is a strict total order: what `sorted` relies on for strings and for ints. */
  ghost predicate StrictOrder<T(!new)>(lt: (T, T) -> bool) {
    (forall x :: !lt(x, x)) &&
    (forall x, y, z :: lt(x, y) && lt(y, z) ==> lt(x, z)) &&
    (forall x, y :: x != y ==> lt(x, y) || lt(y, x))
  }

  /** Python's `<` on strings: by code point from the left, a proper prefix first. */
  predicate StrLess(a: string, b: string)
    decreases |a|
  {
    if |a| == 0 then |b| > 0
    else |b| > 0 && (a[0] < b[0] || (a[0] == b[0] && StrLess(a[1..], b[1..])))
  }

  /** Python's `<` on ints. */
  predicate IntLess(a: int, b: int) {
    a < b
  }

  lemma {:induction false} StrLessIrreflexive(a: string)
    ensures !StrLess(a, a)
    decreases |a|
  {
    if |a| > 0 {
      StrLessIrreflexive(a[1..]);
    }
  }

  lemma {:induction false} StrLessTransitive(a: string, b: string, c: string)
    requires StrLess(a, b) && StrLess(b, c)
    ensures StrLess(a, c)
    decreases |a|
  {
    if |a| > 0 && a[0] == b[0] && b[0] == c[0] {
      StrLessTransitive(a[1..], b[1..], c[1..]);
    }
  }

  lemma {:induction false} StrLessTotal(a: string, b: string)
    requires a != b
    ensures StrLess(a, b) || StrLess(b, a)
    decreases |a|
  {
    if |a| > 0 && |b| > 0 && a[0] == b[0] {
      assert a == [a[0]] + a[1..] && b == [b[0]] + b[1..];
      StrLessTotal(a[1..], b[1..]);
    }
  }

  /** String comparison is a strict total order. */
  lemma StrLessOrder()
    ensures StrictOrder(StrLess)
  {
    forall x ensures !StrLess(x, x) {
      StrLessIrreflexive(x);
    }
    forall x, y, z | StrLess(x, y) && StrLess(y, z) ensures StrLess(x, z) {
      StrLessTransitive(x, y, z);
    }
    forall x, y | x != y ensures StrLess(x, y) || StrLess(y, x) {
      StrLessTotal(x, y);
    }
  }

  lemma IntLessOrder()
    ensures StrictOrder(IntLess)
  {
  }

  // ----- sorted -----

  /** Strictly increasing under `lt`, hence without repetitions. */
  ghost predicate SortedBy<T>(lt: (T, T) -> bool, xs: seq<T>) {
    forall i, j :: 0 <= i < j < |xs| ==> lt(xs[i], xs[j])
  }

  /** `x` placed before the first element of `xs` that is not below it. */
  function Insert<T>(lt: (T, T) -> bool, x: T, xs: seq<T>): (r: seq<T>)
    ensures multiset(r) == multiset(xs) + multiset{x}
  {
    if |xs| == 0 then [x]
    else if lt(xs[0], x) then
      assert xs == [xs[0]] + xs[1..];
      [xs[0]] + Insert(lt, x, xs[1..])
    else [x] + xs
  }

  /** `sorted(xs)`, as an insertion sort. */
  function Sort<T>(lt: (T, T) -> bool, xs: seq<T>): (r: seq<T>)
    ensures multiset(r) == multiset(xs)
  {
    if |xs| == 0 then []
    else
      assert xs == [xs[0]] + xs[1..];
      Insert(lt, xs[0], Sort(lt, xs[1..]))
  }

  /** An element below every element of a strictly increasing list can go in front. */
  lemma PrependSorted<T>(lt: (T, T) -> bool, a: T, r: seq<T>)
    requires SortedBy(lt, r) && forall y :: y in r ==> lt(a, y)
    ensures SortedBy(lt, [a] + r)
  {
    var s := [a] + r;
    forall i, j | 0 <= i < j < |s| ensures lt(s[i], s[j]) {
      assert s[j] == r[j - 1];
      if i > 0 {
        assert s[i] == r[i - 1];
      }
    }
  }

  lemma TailSorted<T>(lt: (T, T) -> bool, xs: seq<T>)
    requires |xs| > 0 && SortedBy(lt, xs)
    ensures SortedBy(lt, xs[1..]) && forall y :: y in xs[1..] ==> lt(xs[0], y)
  {
    var t := xs[1..];
    forall i, j | 0 <= i < j < |t| ensures lt(t[i], t[j]) {
      assert t[i] == xs[i + 1] && t[j] == xs[j + 1];
    }
    forall y | y in t ensures lt(xs[0], y) {
      var k :| 0 <= k < |t| && t[k] == y;
      assert xs[k + 1] == y;
    }
  }

  lemma {:induction false} InsertSorted<T(!new)>(lt: (T, T) -> bool, x: T, xs: seq<T>)
    requires StrictOrder(lt) && SortedBy(lt, xs) && x !in xs
    ensures SortedBy(lt, Insert(lt, x, xs))
  {
    if |xs| > 0 {
      var t := xs[1..];
      TailSorted(lt, xs);
      if lt(xs[0], x) {
        assert x !in t;
        InsertSorted(lt, x, t);
        var r := Insert(lt, x, t);
        forall y | y in r ensures lt(xs[0], y) {
          assert y in multiset(r);
        }
        PrependSorted(lt, xs[0], r);
      } else {
        assert x != xs[0];
        assert lt(x, xs[0]);
        forall y | y in xs ensures lt(x, y) {
          if y != xs[0] {
            assert y in t;
          }
        }
        assert xs == [xs[0]] + t;
        PrependSorted(lt, x, xs);
      }
    }
  }

  /** The sort of a list without repetitions is strictly increasing. */
  lemma {:induction false} SortSorted<T(!new)>(lt: (T, T) -> bool, xs: seq<T>)
    requires StrictOrder(lt) && Distinct(xs)
    ensures SortedBy(lt, Sort(lt, xs))
  {
    if |xs| > 0 {
      var t := xs[1..];
      assert Distinct(t) by {
        forall i, j | 0 <= i < j < |t| ensures t[i] != t[j] {
          assert t[i] == xs[i + 1] && t[j] == xs[j + 1];
        }
      }
      SortSorted(lt, t);
      var s := Sort(lt, t);
      assert forall k :: 0 <= k < |t| ==> t[k] == xs[k + 1];
      assert xs[0] !in t;
      assert xs[0] !in s by {
        assert multiset(s)[xs[0]] == multiset(t)[xs[0]] == 0;
      }
      InsertSorted(lt, xs[0], s);
    }
  }

  /** Two strictly increasing lists with the same elements are the same list. */
  lemma {:induction false} SortedUnique<T(!new)>(lt: (T, T) -> bool, a: seq<T>, b: seq<T>)
    requires StrictOrder(lt) && SortedBy(lt, a) && SortedBy(lt, b)
    requires forall x :: x in a <==> x in b
    ensures a == b
  {
    assert |a| > 0 ==> a[0] in a;
    assert |b| > 0 ==> b[0] in b;
    if |a| > 0 && |b| > 0 {
      // both heads are the least element of the common set
      assert a[0] in b && b[0] in a;
      assert a[0] == b[0];
      var a', b' := a[1..], b[1..];
      forall x ensures x in a' <==> x in b' {
        if x in a' {
          var i :| 0 <= i < |a'| && a'[i] == x;
          assert a[i + 1] == x && lt(a[0], x);
          assert x in b;
          var j :| 0 <= j < |b| && b[j] == x;
          assert j > 0 && b'[j - 1] == x;
        }
        if x in b' {
          var i :| 0 <= i < |b'| && b'[i] == x;
          assert b[i + 1] == x && lt(b[0], x);
          assert x in a;
          var j :| 0 <= j < |a| && a[j] == x;
          assert j > 0 && a'[j - 1] == x;
        }
      }
      assert SortedBy(lt, a') by {
        forall i, j | 0 <= i < j < |a'| ensures lt(a'[i], a'[j]) {
          assert a'[i] == a[i + 1] && a'[j] == a[j + 1];
        }
      }
      assert SortedBy(lt, b') by {
        forall i, j | 0 <= i < j < |b'| ensures lt(b'[i], b'[j]) {
          assert b'[i] == b[i + 1] && b'[j] == b[j + 1];
        }
      }
      SortedUnique(lt, a', b');
      assert a == [a[0]] + a' && b == [b[0]] + b';
    }
  }

  /** Every finite set has an increasing listing. */
  lemma {:induction false} SortedExists<T(!new)>(lt: (T, T) -> bool, s: set<T>)
    requires StrictOrder(lt)
    ensures exists xs :: SortedBy(lt, xs) && forall x :: x in xs <==> x in s
    decreases |s|
  {
    if s == {} {
      assert SortedBy(lt, []);
    } else {
      var y :| y in s;
      SortedExists(lt, s - {y});
      var xs :| SortedBy(lt, xs) && forall x :: x in xs <==> x in s - {y};
      InsertSorted(lt, y, xs);
      var r := Insert(lt, y, xs);
      forall x ensures x in r <==> x in s {
        assert x in r <==> x in multiset(r);
        assert x in xs <==> x in multiset(xs);
      }
    }
  }

  /** `sorted(s)` for a set `s`: its elements in increasing order. */
  ghost function SortedOf<T(!new)>(lt: (T, T) -> bool, s: set<T>): (r: seq<T>)
    requires StrictOrder(lt)
    ensures SortedBy(lt, r)
    ensures forall x :: x in r <==> x in s
  {
    SortedExists(lt, s);
    var xs :| SortedBy(lt, xs) && forall x :: x in xs <==> x in s;
    xs
  }

  /** Sorting any listing of a set without repetitions gives `SortedOf` it: the result of
      `sorted` does not depend on the set's iteration order. */
  lemma SortListing<T(!new)>(lt: (T, T) -> bool, xs: seq<T>, s: set<T>)
    requires StrictOrder(lt) && Distinct(xs)
    requires forall x :: x in xs <==> x in s
    ensures Sort(lt, xs) == SortedOf(lt, s)
  {
    SortSorted(lt, xs);
    var r := Sort(lt, xs);
    forall x ensures x in r <==> x in s {
      assert x in r <==> x in multiset(r);
      assert x in xs <==> x in multiset(xs);
    }
    SortedUnique(lt, r, SortedOf(lt, s));
  }

  /** `sorted(s)`, computed from the set's iteration order, which it does not depend on. */
  method SortedSet<T(==, !new)>(lt: (T, T) -> bool, s: set<T>) returns (r: seq<T>)
    requires StrictOrder(lt)
    ensures r == SortedOf(lt, s)
  {
    var listing := Thesaurus.Enumerate(s);
    r := Sort(lt, listing);
    SortListing(lt, listing, s);
  }

  /** `sorted(keys)`. */
  ghost function SortedKeys(keys: set<string>): (r: seq<string>)
    ensures SortedBy(StrLess, r)
    ensures forall x :: x in r <==> x in keys
  {
    StrLessOrder();
    SortedOf(StrLess, keys)
  }

  /** `sorted(keys)` computed from the set's iteration order, which it does not depend on. */
  method Sorted(keys: set<string>) returns (r: seq<string>)
    ensures r == SortedKeys(keys)
  {
    StrLessOrder();
    r := SortedSet(StrLess, keys);
  }

  /** A sorted list of strings has no repetitions. */
  lemma DistinctKeys(keys: seq<string>)
    requires SortedBy(StrLess, keys)
    ensures Distinct(keys)
  {
    StrLessOrder();
  }

  /** A listing without repetitions is as long as the set it lists. */
  lemma {:induction false} DistinctCard<T>(xs: seq<T>, s: set<T>)
    requires Distinct(xs) && forall x :: x in xs <==> x in s
    ensures |xs| == |s|
  {
    if |xs| > 0 {
      var t := xs[1..];
      assert forall k :: 0 <= k < |t| ==> t[k] == xs[k + 1];
      assert Distinct(t);
      assert xs[0] !in t;
      forall x ensures x in t <==> x in s - {xs[0]} {
        assert x in xs <==> x == xs[0] || x in t;
      }
      DistinctCard(t, s - {xs[0]});
    } else {
      assert forall x :: x !in s;
      assert s == {};
    }
  }

  // ----- combinations -----

  /** `itertools.combinations(xs, 2)`: the pairs `(xs[p], xs[q])` with `p < q`, in
      increasing `p` and, for equal `p`, increasing `q`. */
  function Pairs<T>(xs: seq<T>): seq<(T, T)> {
    if |xs| == 0 then []
    else Row(xs[0], xs[1..]) + Pairs(xs[1..])
  }

  /** The pairs that start with `x`, one per later element. */
  function Row<T>(x: T, ys: seq<T>): (r: seq<(T, T)>)
    ensures |r| == |ys|
    ensures forall q :: 0 <= q < |ys| ==> r[q] == (x, ys[q])
  {
    seq(|ys|, q requires 0 <= q < |ys| => (x, ys[q]))
  }

  /** There are `n(n-1)/2` of them. */
  lemma {:induction false} PairsLength<T>(xs: seq<T>)
    ensures 2 * |Pairs(xs)| == |xs| * (|xs| - 1)
  {
    if |xs| > 0 {
      PairsLength(xs[1..]);
    }
  }

  /** A pair is produced exactly when its first element comes strictly before its second. */
  lemma {:induction false} PairsMembers<T>(xs: seq<T>, x: T, y: T)
    ensures (x, y) in Pairs(xs) <==> exists p, q :: 0 <= p < q < |xs| && xs[p] == x && xs[q] == y
  {
    if |xs| > 0 {
      var t := xs[1..];
      PairsMembers(t, x, y);
      if (x, y) in Pairs(xs) {
        if (x, y) in Row(xs[0], t) {
          var q :| 0 <= q < |t| && Row(xs[0], t)[q] == (x, y);
          assert xs[0] == x && xs[q + 1] == y;
        } else {
          var p, q :| 0 <= p < q < |t| && t[p] == x && t[q] == y;
          assert xs[p + 1] == x && xs[q + 1] == y;
        }
      }
      if exists p, q :: 0 <= p < q < |xs| && xs[p] == x && xs[q] == y {
        var p, q :| 0 <= p < q < |xs| && xs[p] == x && xs[q] == y;
        if p == 0 {
          assert Row(xs[0], t)[q - 1] == (x, y);
        } else {
          assert t[p - 1] == x && t[q - 1] == y;
        }
      }
    }
  }

  /** Over an increasing list every pair is increasing: `d1 < d2`. */
  lemma PairsIncreasing<T(!new)>(lt: (T, T) -> bool, xs: seq<T>, x: T, y: T)
    requires SortedBy(lt, xs) && (x, y) in Pairs(xs)
    ensures lt(x, y)
  {
    PairsMembers(xs, x, y);
  }

  /** Over an increasing list, any two of its elements in increasing order form a pair. */
  lemma SortedPairs<T(!new)>(lt: (T, T) -> bool, xs: seq<T>, x: T, y: T)
    requires StrictOrder(lt) && SortedBy(lt, xs)
    requires x in xs && y in xs && lt(x, y)
    ensures (x, y) in Pairs(xs)
  {
    var p :| 0 <= p < |xs| && xs[p] == x;
    var q :| 0 <= q < |xs| && xs[q] == y;
    assert q < p ==> lt(y, x);
    assert p < q;
    PairsMembers(xs, x, y);
  }

  /** Any two different elements of a list form a pair in one order or the other. */
  lemma PairsCover<T>(xs: seq<T>, x: T, y: T)
    requires x in xs && y in xs && x != y
    ensures (x, y) in Pairs(xs) || (y, x) in Pairs(xs)
  {
    var p :| 0 <= p < |xs| && xs[p] == x;
    var q :| 0 <= q < |xs| && xs[q] == y;
    PairsMembers(xs, x, y);
    PairsMembers(xs, y, x);
    assert p < q || q < p;
  }

  /** Pair `p` comes before pair `q` in lexicographic order under `lt`. */
  ghost predicate LexLess<T>(lt: (T, T) -> bool, p: (T, T), q: (T, T)) {
    lt(p.0, q.0) || (p.0 == q.0 && lt(p.1, q.1))
  }

  /** Over an increasing list the pairs come out in increasing lexicographic order. */
  lemma {:induction false} PairsLexicographic<T(!new)>(lt: (T, T) -> bool, xs: seq<T>, i: nat, j: nat)
    requires SortedBy(lt, xs) && i < j < |Pairs(xs)|
    ensures LexLess(lt, Pairs(xs)[i], Pairs(xs)[j])
  {
    var t := xs[1..];
    var h, rest := Row(xs[0], t), Pairs(t);
    assert Pairs(xs) == h + rest;
    assert forall k :: 0 <= k < |t| ==> t[k] == xs[k + 1];
    if j < |h| {
      assert Pairs(xs)[i] == (xs[0], xs[i + 1]) && Pairs(xs)[j] == (xs[0], xs[j + 1]);
    } else if i < |h| {
      var pr := rest[j - |h|];
      assert pr in rest;
      PairsMembers(t, pr.0, pr.1);
      var p, q :| 0 <= p < q < |t| && t[p] == pr.0 && t[q] == pr.1;
      assert lt(xs[0], xs[p + 1]);
    } else {
      assert SortedBy(lt, t);
      PairsLexicographic(lt, t, i - |h|, j - |h|);
    }
  }

  /** Over a list without repetitions, each unordered pair is produced once: no pair
      twice, and never both orders. */
  lemma {:induction false} PairsOnce<T>(xs: seq<T>)
    requires Distinct(xs)
    ensures Distinct(Pairs(xs))
    ensures forall x, y :: (x, y) in Pairs(xs) ==> (y, x) !in Pairs(xs)
  {
    if |xs| > 0 {
      var t := xs[1..];
      assert Distinct(t) by {
        forall i, j | 0 <= i < j < |t| ensures t[i] != t[j] {
          assert t[i] == xs[i + 1] && t[j] == xs[j + 1];
        }
      }
      PairsOnce(t);
      var h, rest := Row(xs[0], t), Pairs(t);
      assert forall k :: 0 <= k < |t| ==> t[k] == xs[k + 1];
      assert xs[0] !in t;
      forall k | 0 <= k < |rest| ensures rest[k].0 != xs[0] && rest[k].1 != xs[0] {
        var pr := rest[k];
        assert pr in rest;
        PairsMembers(t, pr.0, pr.1);
      }
      var s := h + rest;
      forall i, j | 0 <= i < j < |s| ensures s[i] != s[j] {
        if j < |h| {
          assert s[i] == h[i] && s[j] == h[j];
        } else if i >= |h| {
          assert s[i] == rest[i - |h|] && s[j] == rest[j - |h|];
        } else {
          assert s[i] == h[i] && s[j] == rest[j - |h|];
        }
      }
    }
    forall x, y | (x, y) in Pairs(xs) ensures (y, x) !in Pairs(xs) {
      PairsMembers(xs, x, y);
      PairsMembers(xs, y, x);
    }
  }

  // ----- filtering -----

  /** The images under `f` of the elements `keep` accepts, in order. */
  function Select<T, U>(xs: seq<T>, keep: T -> bool, f: T -> U): (r: seq<U>)
    ensures |r| <= |xs|
  {
    if |xs| == 0 then []
    else Select(xs[..|xs| - 1], keep, f) + if keep(xs[|xs| - 1]) then [f(xs[|xs| - 1])] else []
  }

  lemma {:induction false} SelectMembers<T, U>(xs: seq<T>, keep: T -> bool, f: T -> U, e: U)
    ensures e in Select(xs, keep, f) <==> exists k :: 0 <= k < |xs| && keep(xs[k]) && e == f(xs[k])
  {
    if |xs| > 0 {
      var init := xs[..|xs| - 1];
      SelectMembers(init, keep, f, e);
      assert forall k :: 0 <= k < |init| ==> init[k] == xs[k];
    }
  }

  /** Two results come from two inputs, in the same order. */
  lemma {:induction false} SelectOrigins<T, U>(xs: seq<T>, keep: T -> bool, f: T -> U, i: nat, j: nat)
    requires i < j < |Select(xs, keep, f)|
    ensures exists p, q :: 0 <= p < q < |xs| && Select(xs, keep, f)[i] == f(xs[p]) && Select(xs, keep, f)[j] == f(xs[q])
  {
    var n := |xs| - 1;
    var init := xs[..n];
    var s := Select(init, keep, f);
    assert forall k :: 0 <= k < |init| ==> init[k] == xs[k];
    if j < |s| {
      SelectOrigins(init, keep, f, i, j);
      var p, q :| 0 <= p < q < |init| && s[i] == f(init[p]) && s[j] == f(init[q]);
      assert Select(xs, keep, f)[i] == s[i] && Select(xs, keep, f)[j] == s[j];
    } else {
      assert Select(xs, keep, f)[i] == s[i];
      assert s[i] in s;
      SelectMembers(init, keep, f, s[i]);
      var p :| 0 <= p < |init| && keep(init[p]) && s[i] == f(init[p]);
      assert Select(xs, keep, f)[j] == f(xs[n]);
    }
  }
}
