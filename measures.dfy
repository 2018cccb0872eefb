/** The semantic-similarity measures: SimUI and SimGIC over propagated annotation sets,
    Resnik's most informative common ancestor, the Lin, Schlicker and Jiang variants built
    on it, and the selection strategies that reduce a term-by-term similarity matrix to one
    value. Logarithms and exponentials are taken as given functions. */
module Measures {
  import opened Wrappers
  import opened Strings
  import opened Thesaurus
  import opened Annotations

  // ----- SimUI and SimGIC -----

  /** The Jaccard index of two propagated descriptor sets; ZeroDivisionError when both
      sets are empty. */
  function SimUI(m1: set<string>, m2: set<string>): (r: Result<real>)
    ensures r.Ok? <==> m1 + m2 != {}
    ensures r.Err? ==> r.error == ZeroDivisionError
    ensures r.Ok? ==> 0.0 <= r.value <= 1.0
    ensures r.Ok? ==> (r.value == 1.0 <==> m1 == m2)
  {
    if m1 + m2 == {} then Err(ZeroDivisionError)
    else
      JaccardCards(m1, m2);
      Ratio(|m1 * m2|, |m1 + m2|);
      assert m1 == m2 ==> m1 * m2 == m1 + m2;
      Ok((|m1 * m2| as real) / (|m1 + m2| as real))
  }

  /** The intersection is no larger than the union, and strictly smaller unless the sets agree. */
  lemma JaccardCards(m1: set<string>, m2: set<string>)
    ensures |m1 * m2| <= |m1 + m2|
    ensures m1 != m2 ==> |m1 * m2| < |m1 + m2|
  {
    SubsetCard(m1 * m2, m1 + m2);
    if m1 != m2 {
      var x :| x in (m1 - m2) + (m2 - m1);
      assert x in m1 + m2 && x !in m1 * m2;
      StrictSubsetCard(m1 * m2, m1 + m2);
    }
  }

  /** The ratio of two naturals `a <= b`, `b > 0`, lies in [0, 1] and is 1 exactly when they agree. */
  lemma Ratio(a: nat, b: nat)
    requires 0 < b && a <= b
    ensures 0.0 <= (a as real) / (b as real) <= 1.0
    ensures (a as real) / (b as real) * (b as real) == a as real
    ensures (a as real) / (b as real) == 1.0 <==> a == b
  {
    var q := (a as real) / (b as real);
    assert q * (b as real) == a as real;
  }

  lemma SubsetCard(a: set<string>, b: set<string>)
    requires a <= b
    ensures |a| <= |b|
  {
    assert b == a + (b - a);
  }

  lemma StrictSubsetCard(a: set<string>, b: set<string>)
    requires a <= b && a != b
    ensures |a| < |b|
  {
    var x :| x in b && x !in a;
    assert a <= b - {x};
    SubsetCard(a, b - {x});
  }

  /** `SimUI.semantic_similarity(d1, d2)`. */
  function SimUIOf(st: AnnState, d1: string, d2: string): (r: Result<real>)
    ensures r == SimUI(Get(st.objects, d1), Get(st.objects, d2))
    ensures r.Ok? ==> 0.0 <= r.value <= 1.0
  {
    SimUI(Get(st.objects, d1), Get(st.objects, d2))
  }

  lemma SimUISymmetric(m1: set<string>, m2: set<string>)
    ensures SimUI(m1, m2) == SimUI(m2, m1)
  {
    assert m1 * m2 == m2 * m1 && m1 + m2 == m2 + m1;
  }

  /** The total number of annotations of the descriptors in `s` (the information weights
      of SimGIC). */
  ghost function SumCounts(st: AnnState, s: set<string>): nat
    decreases |s|
  {
    if s == {} then 0
    else
      var x :| x in s;
      |Get(st.descriptors, x)| + SumCounts(st, s - {x})
  }

  /** The sum does not depend on which element is taken first. */
  lemma {:induction false} SumCountsRemove(st: AnnState, s: set<string>, y: string)
    requires y in s
    ensures SumCounts(st, s) == |Get(st.descriptors, y)| + SumCounts(st, s - {y})
    decreases |s|
  {
    var x :| x in s && SumCounts(st, s) == |Get(st.descriptors, x)| + SumCounts(st, s - {x});
    if x != y {
      SumCountsRemove(st, s - {x}, y);
      SumCountsRemove(st, s - {y}, x);
      assert s - {x} - {y} == s - {y} - {x};
    }
  }

  /** Counts over a subset never exceed counts over the whole set. */
  lemma {:induction false} SumCountsMono(st: AnnState, a: set<string>, b: set<string>)
    requires a <= b
    ensures SumCounts(st, a) <= SumCounts(st, b)
    decreases |b|
  {
    if a != {} {
      var x :| x in a;
      SumCountsRemove(st, a, x);
      SumCountsRemove(st, b, x);
      SumCountsMono(st, a - {x}, b - {x});
    } else {
      assert SumCounts(st, a) == 0;
    }
  }

  /** A weighted Jaccard ratio `inter / union`; ZeroDivisionError when `union` is 0. */
  function WeightedRatio(inter: nat, union: nat): (r: Result<real>)
    requires inter <= union
    ensures r.Ok? <==> union > 0
    ensures r.Err? ==> r.error == ZeroDivisionError
    ensures r.Ok? ==> 0.0 <= r.value <= 1.0 && r.value * (union as real) == inter as real
    ensures r.Ok? ==> (r.value == 1.0 <==> inter == union)
  {
    if union == 0 then Err(ZeroDivisionError)
    else
      Ratio(inter, union);
      Ok((inter as real) / (union as real))
  }

  /** `SimGIC.semantic_similarity(d1, d2)`: annotation counts summed over the intersection of
      the two propagated sets, divided by the counts summed over their union;
      ZeroDivisionError when the union carries no annotation at all. */
  ghost function SimGIC(st: AnnState, d1: string, d2: string): (r: Result<real>)
    ensures var m1 := Get(st.objects, d1); var m2 := Get(st.objects, d2);
      && (r.Ok? <==> SumCounts(st, m1 + m2) > 0)
      && (r.Err? ==> r.error == ZeroDivisionError)
      && (r.Ok? ==> 0.0 <= r.value <= 1.0)
      && (r.Ok? ==> r.value * (SumCounts(st, m1 + m2) as real) == SumCounts(st, m1 * m2) as real)
  {
    var m1 := Get(st.objects, d1);
    var m2 := Get(st.objects, d2);
    SumCountsMono(st, m1 * m2, m1 + m2);
    WeightedRatio(SumCounts(st, m1 * m2), SumCounts(st, m1 + m2))
  }

  /** The sum of `num_annot_per_descriptor` over a set of descriptors, taken in any order. */
  method SumCountsOf(st: AnnState, s: set<string>) returns (n: nat)
    ensures n == SumCounts(st, s)
  {
    n := 0;
    var rest := s;
    while rest != {}
      invariant rest <= s
      invariant n + SumCounts(st, rest) == SumCounts(st, s)
      decreases |rest|
    {
      var x :| x in rest;
      SumCountsRemove(st, rest, x);
      n := n + |Get(st.descriptors, x)|;
      rest := rest - {x};
    }
  }

  /** SimGIC computed as the source does, by summing the counts of each of the two sets. */
  method SimGICValue(st: AnnState, d1: string, d2: string) returns (r: Result<real>)
    ensures r == SimGIC(st, d1, d2)
  {
    var m1 := Get(st.objects, d1);
    var m2 := Get(st.objects, d2);
    var inter := SumCountsOf(st, m1 * m2);
    var union := SumCountsOf(st, m1 + m2);
    SumCountsMono(st, m1 * m2, m1 + m2);
    r := WeightedRatio(inter, union);
  }

  lemma SimGICSymmetric(st: AnnState, d1: string, d2: string)
    ensures SimGIC(st, d1, d2) == SimGIC(st, d2, d1)
  {
    var m1 := Get(st.objects, d1);
    var m2 := Get(st.objects, d2);
    assert m1 * m2 == m2 * m1 && m1 + m2 == m2 + m1;
  }

  // ----- Resnik and its variants -----

  /** `number_of_annotations.index(min(number_of_annotations))`: the first position of the
      smallest count. */
  function ArgMinFirst(xs: seq<nat>): (k: nat)
    requires |xs| > 0
    ensures k < |xs|
    ensures forall j :: 0 <= j < |xs| ==> xs[k] <= xs[j]
    ensures forall j :: 0 <= j < k ==> xs[j] > xs[k]
  {
    if |xs| == 1 then 0
    else
      var k := ArgMinFirst(xs[1..]);
      if xs[0] <= xs[k + 1] then 0 else k + 1
  }

  /** The annotation count of each listed node's identifier. */
  function Counts(st: AnnState, ns: seq<Node>, common: seq<NodeRef>): (cs: seq<nat>)
    requires forall i :: 0 <= i < |common| ==> common[i] < |ns|
    ensures |cs| == |common|
    ensures forall i :: 0 <= i < |common| ==> cs[i] == |Get(st.descriptors, ns[common[i]].identifier)|
  {
    seq(|common|, i requires 0 <= i < |common| => |Get(st.descriptors, ns[common[i]].identifier)|)
  }

  /** `Resnik.semantic_similarity`, given the list of common ancestors in iteration order:
      the identifier of the first ancestor with the fewest annotations, and its information
      content `-log10(count / numObjects)`. `min` of an empty list raises ValueError;
      `numObjects == 0` raises ZeroDivisionError. */
  function Resnik(st: AnnState, ns: seq<Node>, common: seq<NodeRef>, numObjects: nat,
                  log10: real -> real): (r: Result<(string, real)>)
    requires forall i :: 0 <= i < |common| ==> common[i] < |ns|
    ensures r.Ok? <==> |common| > 0 && numObjects > 0
    ensures |common| == 0 ==> r == Err(ValueError)
    ensures |common| > 0 && numObjects == 0 ==> r == Err(ZeroDivisionError)
    ensures r.Ok? ==>
      var cs := Counts(st, ns, common);
      exists k :: && 0 <= k < |common|
                  && r.value.0 == ns[common[k]].identifier
                  && (forall j :: 0 <= j < |common| ==> cs[k] <= cs[j])
                  && (forall j :: 0 <= j < k ==> cs[j] > cs[k])
                  && r.value.1 == -log10(cs[k] as real / numObjects as real)
  {
    if |common| == 0 then Err(ValueError)
    else
      var cs := Counts(st, ns, common);
      var k := ArgMinFirst(cs);
      if numObjects == 0 then Err(ZeroDivisionError)
      else Ok((ns[common[k]].identifier, -log10(cs[k] as real / numObjects as real)))
  }

  /** `log10(num_annot_per_descriptor(d) / num_objects)`, for a positive number of objects. */
  function LogP(st: AnnState, d: string, numObjects: nat, log10: real -> real): real
    requires numObjects > 0
  {
    log10(|Get(st.descriptors, d)| as real / numObjects as real)
  }

  /** Lin's ratio with its guard: 0 when the two log-probabilities sum to 0. */
  function LinValue(logp1: real, logp2: real, ic: real): (v: real)
    ensures logp1 + logp2 == 0.0 ==> v == 0.0
    ensures logp1 + logp2 != 0.0 ==> v * (logp1 + logp2) == -2.0 * ic
  {
    if logp1 + logp2 == 0.0 then 0.0 else (-2.0 * ic) / (logp1 + logp2)
  }

  /** `Lin.semantic_similarity`: Resnik's ancestor, with Lin's ratio as the value. */
  function Lin(st: AnnState, ns: seq<Node>, common: seq<NodeRef>, numObjects: nat, log10: real -> real,
               d1: string, d2: string): Result<(string, real)>
    requires forall i :: 0 <= i < |common| ==> common[i] < |ns|
  {
    if numObjects == 0 then Err(ZeroDivisionError)
    else
      var res :- Resnik(st, ns, common, numObjects, log10);
      Ok((res.0, LinValue(LogP(st, d1, numObjects, log10), LogP(st, d2, numObjects, log10), res.1)))
  }

  /** Both log-probabilities are computed before Resnik's value, so no objects at all is a
      ZeroDivisionError even when there is no common ancestor; otherwise the ancestor is
      Resnik's and the value is `-2 ic / (logp1 + logp2)`, 0 when the sum is 0. */
  lemma LinMeaning(st: AnnState, ns: seq<Node>, common: seq<NodeRef>, numObjects: nat, log10: real -> real,
                   d1: string, d2: string)
    requires forall i :: 0 <= i < |common| ==> common[i] < |ns|
    ensures var r := Lin(st, ns, common, numObjects, log10, d1, d2);
      && (r.Ok? <==> |common| > 0 && numObjects > 0)
      && (numObjects == 0 ==> r == Err(ZeroDivisionError))
      && (numObjects > 0 && |common| == 0 ==> r == Err(ValueError))
      && (r.Ok? ==>
        var res := Resnik(st, ns, common, numObjects, log10);
        var lp1 := log10(|Get(st.descriptors, d1)| as real / numObjects as real);
        var lp2 := log10(|Get(st.descriptors, d2)| as real / numObjects as real);
        && r.value.0 == res.value.0
        && (lp1 + lp2 == 0.0 ==> r.value.1 == 0.0)
        && (lp1 + lp2 != 0.0 ==> r.value.1 * (lp1 + lp2) == -2.0 * res.value.1))
  {
    if numObjects > 0 && |common| > 0 {
      var res := Resnik(st, ns, common, numObjects, log10).value;
      var lp1 := LogP(st, d1, numObjects, log10);
      var lp2 := LogP(st, d2, numObjects, log10);
      assert Lin(st, ns, common, numObjects, log10, d1, d2) == Ok((res.0, LinValue(lp1, lp2, res.1)));
    }
  }

  /** Lin's measure does not depend on the order of the two descriptors. */
  lemma LinSymmetric(st: AnnState, ns: seq<Node>, common: seq<NodeRef>, numObjects: nat,
                     log10: real -> real, d1: string, d2: string)
    requires forall i :: 0 <= i < |common| ==> common[i] < |ns|
    ensures Lin(st, ns, common, numObjects, log10, d1, d2) == Lin(st, ns, common, numObjects, log10, d2, d1)
  {
    if numObjects > 0 && |common| > 0 {
      var p1 := LogP(st, d1, numObjects, log10);
      var p2 := LogP(st, d2, numObjects, log10);
      assert p1 + p2 == p2 + p1;
    }
  }

  /** `Schlicker.semantic_similarity`: Lin's ratio over the same log-probabilities, damped by
      `1 - exp(-ic)` for Resnik's information content `ic`. */
  function Schlicker(st: AnnState, ns: seq<Node>, common: seq<NodeRef>, numObjects: nat,
                     log10: real -> real, exp: real -> real, d1: string, d2: string): Result<(string, real)>
    requires forall i :: 0 <= i < |common| ==> common[i] < |ns|
  {
    if numObjects == 0 then Err(ZeroDivisionError)
    else
      var res :- Resnik(st, ns, common, numObjects, log10);
      var lin := LinValue(LogP(st, d1, numObjects, log10), LogP(st, d2, numObjects, log10), res.1);
      Ok((res.0, lin * (1.0 - exp(-res.1))))
  }

  /** Schlicker's measure is Lin's value damped by `1 - exp(-ic)`, with the same ancestor and
      the same errors as Lin's. */
  lemma SchlickerIsDampedLin(st: AnnState, ns: seq<Node>, common: seq<NodeRef>, numObjects: nat,
                             log10: real -> real, exp: real -> real, d1: string, d2: string)
    requires forall i :: 0 <= i < |common| ==> common[i] < |ns|
    ensures var r := Schlicker(st, ns, common, numObjects, log10, exp, d1, d2);
      var lin := Lin(st, ns, common, numObjects, log10, d1, d2);
      && (r.Ok? <==> lin.Ok?)
      && (r.Err? ==> r.error == lin.error)
      && (r.Ok? ==>
            var ic := Resnik(st, ns, common, numObjects, log10).value.1;
            r.value.0 == lin.value.0 && r.value.1 == lin.value.1 * (1.0 - exp(-ic)))
  {
    var lin := Lin(st, ns, common, numObjects, log10, d1, d2);
    if numObjects > 0 && |common| > 0 {
      var res := Resnik(st, ns, common, numObjects, log10).value;
      assert lin == Ok((res.0, LinValue(LogP(st, d1, numObjects, log10), LogP(st, d2, numObjects, log10), res.1)));
    }
  }

  /** Schlicker's measure does not depend on the order of the two descriptors. */
  lemma SchlickerSymmetric(st: AnnState, ns: seq<Node>, common: seq<NodeRef>, numObjects: nat,
                           log10: real -> real, exp: real -> real, d1: string, d2: string)
    requires forall i :: 0 <= i < |common| ==> common[i] < |ns|
    ensures Schlicker(st, ns, common, numObjects, log10, exp, d1, d2) == Schlicker(st, ns, common, numObjects, log10, exp, d2, d1)
  {
    LinSymmetric(st, ns, common, numObjects, log10, d1, d2);
    SchlickerIsDampedLin(st, ns, common, numObjects, log10, exp, d1, d2);
    SchlickerIsDampedLin(st, ns, common, numObjects, log10, exp, d2, d1);
    var s12 := Schlicker(st, ns, common, numObjects, log10, exp, d1, d2);
    var s21 := Schlicker(st, ns, common, numObjects, log10, exp, d2, d1);
    if s12.Ok? {
      assert s12.value.0 == s21.value.0 && s12.value.1 == s21.value.1;
      assert s12.value == s21.value;
    }
  }

  /** `Jiang.semantic_similarity`: the distance `-2 ic - logp1 - logp2`, raising what Lin raises. */
  function Jiang(st: AnnState, ns: seq<Node>, common: seq<NodeRef>, numObjects: nat, log10: real -> real,
                 d1: string, d2: string): (r: Result<(string, real)>)
    requires forall i :: 0 <= i < |common| ==> common[i] < |ns|
    ensures var lin := Lin(st, ns, common, numObjects, log10, d1, d2);
      && (r.Ok? <==> lin.Ok?)
      && (r.Err? ==> r.error == lin.error)
    ensures r.Ok? ==>
      var res := Resnik(st, ns, common, numObjects, log10);
      var lp1 := log10(|Get(st.descriptors, d1)| as real / numObjects as real);
      var lp2 := log10(|Get(st.descriptors, d2)| as real / numObjects as real);
      r.value.0 == res.value.0 && r.value.1 + lp1 + lp2 == -2.0 * res.value.1
  {
    if numObjects == 0 then Err(ZeroDivisionError)
    else
      var res :- Resnik(st, ns, common, numObjects, log10);
      Ok((res.0, -2.0 * res.1 - LogP(st, d1, numObjects, log10) - LogP(st, d2, numObjects, log10)))
  }

  lemma JiangSymmetric(st: AnnState, ns: seq<Node>, common: seq<NodeRef>, numObjects: nat,
                       log10: real -> real, d1: string, d2: string)
    requires forall i :: 0 <= i < |common| ==> common[i] < |ns|
    ensures Jiang(st, ns, common, numObjects, log10, d1, d2) == Jiang(st, ns, common, numObjects, log10, d2, d1)
  {
  }

  // ----- selection strategies -----

  /** A numpy matrix: rows of equal length `cols`. */
  predicate Rect(m: seq<seq<real>>, cols: nat) {
    forall i :: 0 <= i < |m| ==> |m[i]| == cols
  }

  /** The entries in row-major order. */
  function Flatten(m: seq<seq<real>>): (xs: seq<real>)
    ensures forall i, j :: 0 <= i < |m| && 0 <= j < |m[i]| ==> m[i][j] in xs
  {
    if |m| == 0 then [] else m[0] + Flatten(m[1..])
  }

  /** Every entry of the flattened matrix is an entry of the matrix. */
  lemma {:induction false} FlattenMembers(m: seq<seq<real>>, x: real)
    requires x in Flatten(m)
    ensures exists i, j :: 0 <= i < |m| && 0 <= j < |m[i]| && m[i][j] == x
  {
    if x !in m[0] {
      FlattenMembers(m[1..], x);
      var i, j :| 0 <= i < |m[1..]| && 0 <= j < |m[1..][i]| && m[1..][i][j] == x;
      assert m[i + 1][j] == x;
    } else {
      var j :| 0 <= j < |m[0]| && m[0][j] == x;
    }
  }

  lemma {:induction false} FlattenLength(m: seq<seq<real>>, cols: nat)
    requires Rect(m, cols)
    ensures |Flatten(m)| == |m| * cols
  {
    if |m| > 0 {
      FlattenLength(m[1..], cols);
    }
  }

  /** `np.amax` of a non-empty sequence. */
  function MaxOf(xs: seq<real>): (r: real)
    requires |xs| > 0
    ensures r in xs
    ensures forall i :: 0 <= i < |xs| ==> xs[i] <= r
    ensures forall x :: x in xs ==> x <= r
  {
    if |xs| == 1 then xs[0]
    else
      var m := MaxOf(xs[1..]);
      if xs[0] >= m then xs[0] else m
  }

  function MinOf(xs: seq<real>): (r: real)
    requires |xs| > 0
    ensures r in xs
    ensures forall i :: 0 <= i < |xs| ==> r <= xs[i]
    ensures forall x :: x in xs ==> r <= x
  {
    if |xs| == 1 then xs[0]
    else
      var m := MinOf(xs[1..]);
      if xs[0] <= m then xs[0] else m
  }

  function Sum(xs: seq<real>): real {
    if |xs| == 0 then 0.0 else xs[0] + Sum(xs[1..])
  }

  /** A sum over entries bounded below by `lo` and above by `hi` lies between `n lo` and `n hi`. */
  lemma {:induction false} SumBounds(xs: seq<real>, lo: real, hi: real)
    requires forall i :: 0 <= i < |xs| ==> lo <= xs[i] <= hi
    ensures (|xs| as real) * lo <= Sum(xs) <= (|xs| as real) * hi
  {
    if |xs| > 0 {
      SumBounds(xs[1..], lo, hi);
    }
  }

  /** `np.mean` of a non-empty sequence. */
  function Mean(xs: seq<real>): (r: real)
    requires |xs| > 0
    ensures r * (|xs| as real) == Sum(xs)
  {
    Sum(xs) / (|xs| as real)
  }

  /** `x` is the mean of the non-empty `xs`: scaled by the length it gives back the sum. */
  predicate IsMean(x: real, xs: seq<real>) {
    |xs| > 0 && x * (|xs| as real) == Sum(xs)
  }

  /** Dividing bounds `n lo <= s <= n hi` by a positive `n`. */
  lemma DivBounds(s: real, n: real, lo: real, hi: real)
    requires n > 0.0 && n * lo <= s <= n * hi
    ensures lo <= s / n <= hi
  {
    var q := s / n;
    assert q * n == s;
  }

  /** The mean of entries bounded by `lo` and `hi` is bounded by them. */
  lemma MeanBounds(xs: seq<real>, lo: real, hi: real)
    requires |xs| > 0
    requires forall i :: 0 <= i < |xs| ==> lo <= xs[i] <= hi
    ensures lo <= Mean(xs) <= hi
  {
    SumBounds(xs, lo, hi);
    DivBounds(Sum(xs), |xs| as real, lo, hi);
  }

  /** The mean lies between the least and the greatest entry. */
  lemma MeanBetween(xs: seq<real>)
    requires |xs| > 0
    ensures MinOf(xs) <= Mean(xs) <= MaxOf(xs)
  {
    MeanBounds(xs, MinOf(xs), MaxOf(xs));
  }

  predicate SortedUp(xs: seq<real>) {
    forall i, j :: 0 <= i < j < |xs| ==> xs[i] <= xs[j]
  }

  /** Inserts `x` into a sorted sequence before the first entry not below it. */
  function Insert(x: real, xs: seq<real>): (r: seq<real>)
    ensures |r| == |xs| + 1
  {
    if |xs| == 0 then [x]
    else if x <= xs[0] then [x] + xs
    else [xs[0]] + Insert(x, xs[1..])
  }

  lemma {:induction false} InsertPerm(x: real, xs: seq<real>)
    ensures multiset(Insert(x, xs)) == multiset(xs) + multiset{x}
  {
    if |xs| > 0 && x > xs[0] {
      InsertPerm(x, xs[1..]);
      assert xs == [xs[0]] + xs[1..];
    }
  }

  lemma {:induction false} InsertSorted(x: real, xs: seq<real>)
    requires SortedUp(xs)
    ensures SortedUp(Insert(x, xs))
  {
    if |xs| > 0 && x > xs[0] {
      InsertSorted(x, xs[1..]);
      InsertPerm(x, xs[1..]);
      var rest := Insert(x, xs[1..]);
      forall i | 0 <= i < |rest|
        ensures xs[0] <= rest[i]
      {
        assert rest[i] in multiset(rest);
        assert rest[i] == x || rest[i] in xs[1..];
      }
    }
  }

  /** The entries in ascending order (numpy's `median` sorts its input). */
  function Sort(xs: seq<real>): (r: seq<real>)
    ensures SortedUp(r)
    ensures multiset(r) == multiset(xs)
    ensures |r| == |xs|
  {
    if |xs| == 0 then []
    else
      assert xs == [xs[0]] + xs[1..];
      InsertSorted(xs[0], Sort(xs[1..]));
      InsertPerm(xs[0], Sort(xs[1..]));
      Insert(xs[0], Sort(xs[1..]))
  }

  /** `np.median`: the middle entry of the sorted values, or the mean of the two middle
      entries when their number is even. */
  function Median(xs: seq<real>): (r: real)
    requires |xs| > 0
    ensures MinOf(xs) <= r <= MaxOf(xs)
  {
    var s := Sort(xs);
    var n := |s|;
    MedianInRange(xs, s, n / 2);
    if n % 2 == 1 then s[n / 2]
    else
      MedianInRange(xs, s, n / 2 - 1);
      (s[n / 2 - 1] + s[n / 2]) / 2.0
  }

  lemma MedianInRange(xs: seq<real>, s: seq<real>, k: nat)
    requires |xs| > 0 && multiset(s) == multiset(xs) && k < |s|
    ensures MinOf(xs) <= s[k] <= MaxOf(xs)
  {
    assert s[k] in multiset(s);
    assert s[k] in xs;
  }

  /** The row maxima (`np.amax(values, 1)`), each row non-empty. */
  function RowMax(m: seq<seq<real>>, cols: nat): (r: seq<real>)
    requires Rect(m, cols) && cols > 0
    ensures |r| == |m|
    ensures forall i :: 0 <= i < |m| ==> r[i] == MaxOf(m[i])
  {
    seq(|m|, i requires 0 <= i < |m| => MaxOf(m[i]))
  }

  /** Column `j` of a rectangular matrix. */
  function Column(m: seq<seq<real>>, cols: nat, j: nat): (c: seq<real>)
    requires Rect(m, cols) && j < cols
    ensures |c| == |m| && forall i :: 0 <= i < |m| ==> c[i] == m[i][j]
  {
    seq(|m|, i requires 0 <= i < |m| => m[i][j])
  }

  /** The column maxima (`np.amax(values, 0)`), the matrix having at least one row. */
  function ColMax(m: seq<seq<real>>, cols: nat): (r: seq<real>)
    requires Rect(m, cols) && |m| > 0
    ensures |r| == cols
    ensures forall j :: 0 <= j < cols ==> r[j] == MaxOf(Column(m, cols, j))
  {
    seq(cols, j requires 0 <= j < cols => MaxOf(Column(m, cols, j)))
  }

  /** The names the strategies are matched against, after upper-casing. */
  predicate KnownStrategy(s: string) {
    s == "MAX" || s == "AVG" || s == "MED" || s == "ALFONSO"
  }

  /** `Resnik.selectionStrategy(values)` on an `|m|`-by-`cols` matrix, the name compared
      upper-cased. */
  function SelectionStrategy(strategy: string, m: seq<seq<real>>, cols: nat): Result<real>
    requires Rect(m, cols)
  {
    var name := Upper(strategy);
    var flat := Flatten(m);
    if name == "MAX" then
      if |flat| == 0 then Err(ValueError) else Ok(MaxOf(flat))
    else if name == "AVG" then
      if |flat| == 0 then Err(ZeroDivisionError) else Ok(Mean(flat))
    else if name == "MED" then
      if |flat| == 0 then Err(ZeroDivisionError) else Ok(Median(flat))
    else if name == "ALFONSO" then
      if |m| == 0 || cols == 0 then Err(ValueError)
      else Ok(Mean(RowMax(m, cols) + ColMax(m, cols)))
    else Err(UnboundLocal)
  }

  /** numpy's `amax` over an empty axis raises ValueError; `mean` and `median` of an empty
      array are not a number, reported here as ZeroDivisionError; an unknown name leaves
      `selected_value` unbound. MAX is the largest entry, AVG the mean of all entries, MED
      lies between the smallest and the largest, ALFONSO is the mean of the row and column
      maxima. */
  lemma SelectionStrategyMeaning(strategy: string, m: seq<seq<real>>, cols: nat)
    requires Rect(m, cols)
    ensures var r := SelectionStrategy(strategy, m, cols);
      && (!KnownStrategy(Upper(strategy)) <==> r == Err(UnboundLocal))
      && (Upper(strategy) == "MAX" ==>
        && (r.Ok? <==> |m| > 0 && cols > 0)
        && (r.Ok? ==> (r.value in Flatten(m) && forall i, j :: 0 <= i < |m| && 0 <= j < cols ==> m[i][j] <= r.value)))
      && (Upper(strategy) == "AVG" ==>
        && (r.Ok? <==> |m| > 0 && cols > 0)
        && (r.Ok? ==> IsMean(r.value, Flatten(m))))
      && (Upper(strategy) == "MED" && r.Ok? ==>
        |m| > 0 && cols > 0 && MinOf(Flatten(m)) <= r.value <= MaxOf(Flatten(m)))
      && (Upper(strategy) == "ALFONSO" ==>
        && (r.Ok? <==> |m| > 0 && cols > 0)
        && (r.Ok? ==> r.value == Mean(RowMax(m, cols) + ColMax(m, cols))))
  {
    var name := Upper(strategy);
    if name == "MAX" {
      SelectMax(strategy, m, cols);
    } else if name == "AVG" {
      SelectAvg(strategy, m, cols);
    } else if name == "MED" {
      SelectMed(strategy, m, cols);
    } else if name == "ALFONSO" {
      FlattenNonEmpty(m, cols);
    }
  }

  /** A rectangular matrix has entries exactly when it has rows and columns. */
  lemma FlattenNonEmpty(m: seq<seq<real>>, cols: nat)
    requires Rect(m, cols)
    ensures |Flatten(m)| > 0 <==> |m| > 0 && cols > 0
  {
    FlattenLength(m, cols);
    if |m| > 0 && cols > 0 {
      assert |m| * cols >= cols;
    }
  }

  lemma SelectMax(strategy: string, m: seq<seq<real>>, cols: nat)
    requires Rect(m, cols) && Upper(strategy) == "MAX"
    ensures var r := SelectionStrategy(strategy, m, cols);
      && (r.Ok? <==> |m| > 0 && cols > 0)
      && (r.Ok? ==> (r.value in Flatten(m) && forall i, j :: 0 <= i < |m| && 0 <= j < cols ==> m[i][j] <= r.value))
  {
    FlattenNonEmpty(m, cols);
  }

  lemma SelectAvg(strategy: string, m: seq<seq<real>>, cols: nat)
    requires Rect(m, cols) && Upper(strategy) == "AVG"
    ensures var r := SelectionStrategy(strategy, m, cols);
      && (r.Ok? <==> |m| > 0 && cols > 0)
      && (r.Ok? ==> IsMean(r.value, Flatten(m)))
  {
    SelectAvgUnfold(strategy, m, cols);
    FlattenNonEmpty(m, cols);
    MeanResult(Flatten(m), SelectionStrategy(strategy, m, cols), |m| > 0 && cols > 0);
  }

  lemma SelectAvgUnfold(strategy: string, m: seq<seq<real>>, cols: nat)
    requires Rect(m, cols) && Upper(strategy) == "AVG"
    ensures SelectionStrategy(strategy, m, cols)
      == if |Flatten(m)| == 0 then Err(ZeroDivisionError) else Ok(Mean(Flatten(m)))
  {
    assert "AVG" != "MAX" by { assert "AVG"[0] != "MAX"[0]; }
  }

  /** A result that is the mean of a non-empty sequence, and an error on an empty one,
      scales back to the sum. */
  lemma MeanResult(xs: seq<real>, r: Result<real>, nonEmpty: bool)
    requires r == if |xs| == 0 then Err(ZeroDivisionError) else Ok(Mean(xs))
    requires |xs| > 0 <==> nonEmpty
    ensures r.Ok? <==> nonEmpty
    ensures r.Ok? ==> IsMean(r.value, xs)
  {
  }

  lemma SelectMed(strategy: string, m: seq<seq<real>>, cols: nat)
    requires Rect(m, cols) && Upper(strategy) == "MED"
    ensures var r := SelectionStrategy(strategy, m, cols);
      r.Ok? ==> |m| > 0 && cols > 0 && MinOf(Flatten(m)) <= r.value <= MaxOf(Flatten(m))
  {
    FlattenNonEmpty(m, cols);
  }

  /** ALFONSO's score never exceeds the MAX score of the same matrix. */
  lemma AlfonsoAtMostMax(m: seq<seq<real>>, cols: nat)
    requires Rect(m, cols) && |m| > 0 && cols > 0
    ensures Mean(RowMax(m, cols) + ColMax(m, cols)) <= MaxOf(Flatten(m))
  {
    var flat := Flatten(m);
    var hi := MaxOf(flat);
    var rows := RowMax(m, cols);
    var colm := ColMax(m, cols);
    var xs := rows + colm;
    forall i | 0 <= i < |xs|
      ensures xs[i] <= hi
    {
      if i < |m| {
        assert xs[i] == MaxOf(m[i]);
        var k :| 0 <= k < |m[i]| && m[i][k] == MaxOf(m[i]);
        assert m[i][k] in flat;
      } else {
        var j := i - |m|;
        var c := Column(m, cols, j);
        assert xs[i] == MaxOf(c);
        var k :| 0 <= k < |c| && c[k] == MaxOf(c);
        assert m[k][j] in flat;
      }
    }
    MeanBounds(xs, MinOf(xs), hi);
  }
}
