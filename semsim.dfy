/** `SemanticSimilarity`: the index maps over the annotation's objects and descriptors, the
    common ancestors restricted to annotated descriptors, and the three matrix fills
    (descriptor by descriptor, object by object, and object by object through the
    descriptor matrix and a selection strategy). */
module SemanticSimilarities {
  import opened Wrappers
  import opened Strings
  import opened Thesaurus
  import opened Annotations
  import opened Measures

  // ----- iteration order of a set of node references -----

  /** The members of `s` in `lo..hi-1`, in ascending order. The order in which Python
      iterates over a set of node objects is fixed but unspecified; this model takes the
      order in which the node objects were created. */
  function InOrder(s: set<nat>, lo: nat, hi: nat): (xs: seq<nat>)
    ensures forall x :: x in xs <==> x in s && lo <= x < hi
    ensures forall i :: 0 <= i < |xs| ==> lo <= xs[i] < hi
    ensures forall i, j :: 0 <= i < j < |xs| ==> xs[i] < xs[j]
    decreases hi - lo
  {
    if lo >= hi then []
    else
      var rest := InOrder(s, lo + 1, hi);
      if lo in s then
        [lo] + rest
      else rest
  }

  // ----- index maps -----

  /** `for i, x in enumerate(xs): index[x] = i`: every listed key, mapped to its last position. */
  method Indexes(xs: seq<string>) returns (m: map<string, nat>)
    ensures m.Keys == set x | x in xs
    ensures forall k :: k in m ==> m[k] < |xs| && xs[m[k]] == k
    ensures forall k, j :: k in m && m[k] < j < |xs| ==> xs[j] != k
  {
    m := map[];
    for i := 0 to |xs|
      invariant m.Keys == set x | x in xs[..i]
      invariant forall k :: k in m ==> m[k] < i && xs[m[k]] == k
      invariant forall k, j :: k in m && m[k] < j < i ==> xs[j] != k
    {
      assert xs[..i + 1] == xs[..i] + [xs[i]];
      m := m[xs[i] := i];
    }
    assert xs[..|xs|] == xs;
  }

  /** Over a list without repetitions the index map is a bijection onto `0..|xs|-1`. */
  lemma IndexesBijection(xs: seq<string>, m: map<string, nat>)
    requires Distinct(xs)
    requires m.Keys == set x | x in xs
    requires forall k :: k in m ==> m[k] < |xs| && xs[m[k]] == k
    ensures forall i :: 0 <= i < |xs| ==> xs[i] in m && m[xs[i]] == i
    ensures forall k1, k2 :: k1 in m && k2 in m && m[k1] == m[k2] ==> k1 == k2
  {
    forall i | 0 <= i < |xs|
      ensures xs[i] in m && m[xs[i]] == i
    {
      assert xs[i] in m.Keys;
      var p := m[xs[i]];
      assert xs[p] == xs[i];
    }
  }

  // ----- matrices -----

  /** The entries of a two-dimensional array, row by row. */
  function Contents(a: array2<real>): (m: seq<seq<real>>)
    reads a
    ensures |m| == a.Length0 && Rect(m, a.Length1)
    ensures forall i, j :: 0 <= i < a.Length0 && 0 <= j < a.Length1 ==> m[i][j] == a[i, j]
  {
    seq(a.Length0, i requires 0 <= i < a.Length0 reads a =>
      seq(a.Length1, j requires 0 <= j < a.Length1 reads a => a[i, j]))
  }

  /** numpy's `M[rows][:, cols]` on a matrix of width `w`: IndexError when an index is out
      of range, otherwise the entries at the chosen rows and columns. */
  function Submatrix(M: seq<seq<real>>, w: nat, rows: seq<nat>, cols: seq<nat>): (r: Result<seq<seq<real>>>)
    requires Rect(M, w)
    ensures r.Ok? <==> (forall k :: 0 <= k < |rows| ==> rows[k] < |M|) && (forall l :: 0 <= l < |cols| ==> cols[l] < w)
    ensures r.Err? ==> r.error == IndexError
    ensures r.Ok? ==> |r.value| == |rows| && Rect(r.value, |cols|)
    ensures r.Ok? ==> forall k, l :: 0 <= k < |rows| && 0 <= l < |cols| ==> r.value[k][l] == M[rows[k]][cols[l]]
  {
    if exists k :: 0 <= k < |rows| && rows[k] >= |M| then Err(IndexError)
    else if exists l :: 0 <= l < |cols| && cols[l] >= w then Err(IndexError)
    else Ok(seq(|rows|, k requires 0 <= k < |rows| => seq(|cols|, l requires 0 <= l < |cols| => M[rows[k]][cols[l]])))
  }

  function GetIds(ids: map<nat, seq<nat>>, i: nat): seq<nat> {
    if i in ids then ids[i] else []
  }

  /** One cell of the term-wise object matrix: the selection strategy over the descriptor
      similarities between the direct annotations of object `a` (rows) and of object `b`
      (columns). The statistics written beside each cell take `np.max` of the submatrix,
      which raises ValueError when it is empty, whatever the strategy. */
  function TermwiseCell(strategy: string, M: seq<seq<real>>, w: nat, ids: map<nat, seq<nat>>,
                        a: nat, b: nat): (r: Result<real>)
    requires Rect(M, w)
    ensures var sub := Submatrix(M, w, GetIds(ids, a), GetIds(ids, b));
      && (r.Ok? <==> sub.Ok? && KnownStrategy(Upper(strategy)) && |GetIds(ids, a)| > 0 && |GetIds(ids, b)| > 0)
      && (sub.Err? ==> r == Err(IndexError))
      && (sub.Ok? && !KnownStrategy(Upper(strategy)) ==> r == Err(UnboundLocal))
      && (sub.Ok? && KnownStrategy(Upper(strategy)) && !r.Ok? ==> r == Err(ValueError))
      && (r.Ok? ==> r == SelectionStrategy(strategy, sub.value, |GetIds(ids, b)|))
  {
    var rows := GetIds(ids, a);
    var cols := GetIds(ids, b);
    var sub :- Submatrix(M, w, rows, cols);
    if !KnownStrategy(Upper(strategy)) then Err(UnboundLocal)
    else if |rows| == 0 || |cols| == 0 then Err(ValueError)
    else SelectionStrategy(strategy, sub, |cols|)
  }

  // ----- the order in which the upper triangle is visited -----

  /** Every pair `a <= b < n` visited before `(i, j)` in row-major order has a value. */
  ghost predicate OkBefore<T>(cell: (nat, nat) -> Result<T>, n: nat, i: nat, j: nat) {
    forall a: nat, b: nat :: a <= b < n && (a < i || (a == i && b < j)) ==> cell(a, b).Ok?
  }

  ghost predicate AllOk<T>(cell: (nat, nat) -> Result<T>, n: nat) {
    OkBefore(cell, n, n, n)
  }

  /** `e` is the error of the first pair of the upper triangle, in row-major order, without a value. */
  ghost predicate FirstError<T>(cell: (nat, nat) -> Result<T>, n: nat, e: Error) {
    exists i: nat, j: nat :: i <= j < n && OkBefore(cell, n, i, j) && cell(i, j) == Err(e)
  }

  /** The `n`-by-`n` array holds `cell(i, j)` at `[i, j]` and `[j, i]` for every `i <= j`. */
  ghost predicate SymFilled(arr: array2<real>, n: nat, cell: (nat, nat) -> Result<real>)
    reads arr
  {
    && arr.Length0 == n && arr.Length1 == n
    && forall i: nat, j: nat :: i <= j < n ==> cell(i, j).Ok? && arr[i, j] == cell(i, j).value && arr[j, i] == cell(i, j).value
  }

  /** A filled array is symmetric. */
  lemma SymFilledSymmetric(arr: array2<real>, n: nat, cell: (nat, nat) -> Result<real>)
    requires SymFilled(arr, n, cell)
    ensures forall i, j :: 0 <= i < n && 0 <= j < n ==> arr[i, j] == arr[j, i]
  {
    forall i, j | 0 <= i < n && 0 <= j < n
      ensures arr[i, j] == arr[j, i]
    {
      if i <= j {
        assert arr[i, j] == cell(i, j).value;
      } else {
        assert arr[j, i] == cell(j, i).value;
      }
    }
  }

  /** 1 + 2 + ... + n, as row `i` of an `n`-row upper triangle holds `n - i` cells. */
  ghost function TriangleCells(n: nat, i: nat): nat
    requires i <= n
  {
    if i == 0 then 0 else TriangleCells(n, i - 1) + (n - (i - 1))
  }

  lemma {:induction false} TriangleCellsTotal(n: nat, i: nat)
    requires i <= n
    ensures 2 * TriangleCells(n, i) == i * (2 * n - i + 1)
  {
    if i > 0 {
      TriangleCellsTotal(n, i - 1);
      assert (i - 1) * (2 * n - (i - 1) + 1) + 2 * (n - (i - 1)) == i * (2 * n - i + 1);
    }
  }

  // ----- the measures -----

  /** The measures whose `semantic_similarity` works on two descriptors and returns the
      selected ancestor with the value. */
  datatype TermMeasure = ResnikTerm | LinTerm | SchlickerTerm | JiangTerm

  /** The measures whose `semantic_similarity` works on two objects. */
  datatype ObjectMeasure = SimUIObject | SimGICObject

  type LcaEntry = (string, string, real)

  function GetLca(l: map<string, seq<LcaEntry>>, k: string): seq<LcaEntry> {
    if k in l then l[k] else []
  }

  /** `SemanticSimilarity`, with the thesaurus and the annotation as they stand when it is
      built (nothing here changes either). */
  class SemanticSimilarity {
    const st: AnnState
    const ns: seq<Node>
    const nodeById: map<string, NodeRef>
    const objects: seq<string>
    const descriptors: seq<string>
    const log10: real -> real
    const exp: real -> real
    var objectIndexes: map<string, nat>
    var descriptorIndexes: map<string, nat>
    var lowestCommonAncestor: map<string, seq<LcaEntry>>
    var perDescriptor: array2?<real>
    var perObject: array2?<real>

    ghost predicate Valid()
      reads this`objectIndexes, this`descriptorIndexes, this`perDescriptor
    {
      && WellFormed(ns)
      && (forall id :: id in nodeById ==> nodeById[id] < |ns|)
      && Distinct(objects) && Distinct(descriptors)
      && objectIndexes.Keys == (set o | o in objects)
      && (forall i :: 0 <= i < |objects| ==> objectIndexes[objects[i]] == i)
      && descriptorIndexes.Keys == (set d | d in descriptors)
      && (forall i :: 0 <= i < |descriptors| ==> descriptorIndexes[descriptors[i]] == i)
      && (perDescriptor != null ==> perDescriptor.Length0 == |descriptors| && perDescriptor.Length1 == |descriptors|)
    }

    /** `SemanticSimilarity(thesaurus, annotation)`: `objs` and `descs` are
        `list(annotation.get_objects())` and `list(annotation.get_descriptors())`, the keys of
        the two annotation maps in their iteration order. */
    constructor (st: AnnState, ns: seq<Node>, nodeById: map<string, NodeRef>,
                 objs: seq<string>, descs: seq<string>, log10: real -> real, exp: real -> real)
      requires WellFormed(ns) && forall id :: id in nodeById ==> nodeById[id] < |ns|
      requires Distinct(objs) && (set o | o in objs) == st.objects.Keys
      requires Distinct(descs) && (set d | d in descs) == st.descriptors.Keys
      ensures Valid()
      ensures this.st == st && this.ns == ns && this.nodeById == nodeById
      ensures objects == objs && descriptors == descs && this.log10 == log10 && this.exp == exp
      ensures lowestCommonAncestor == map[] && perDescriptor == null && perObject == null
    {
      this.st := st;
      this.ns := ns;
      this.nodeById := nodeById;
      objects := objs;
      descriptors := descs;
      this.log10 := log10;
      this.exp := exp;
      var di := Indexes(descs);
      var oi := Indexes(objs);
      IndexesBijection(descs, di);
      IndexesBijection(objs, oi);
      descriptorIndexes := di;
      objectIndexes := oi;
      lowestCommonAncestor := map[];
      perDescriptor := null;
      perObject := null;
    }

    // ----- common ancestors -----

    /** The common ancestors of two descriptors whose identifier is one of the annotation's
        descriptors, in iteration order; KeyError for an identifier not in the thesaurus. */
    ghost function CommonSpec(id1: string, id2: string): (r: Result<seq<NodeRef>>)
      ensures r.Ok? ==> forall i :: 0 <= i < |r.value| ==> r.value[i] < |ns|
    {
      if id1 !in nodeById || id2 !in nodeById then Err(KeyError)
      else Ok(InOrder(set x | x in Ancestors(ns, nodeById[id1]) * Ancestors(ns, nodeById[id2])
                              && x < |ns| && ns[x].identifier in descriptors, 0, |ns|))
    }

    /** `SemanticSimilarity.common_ancestors`. */
    method CommonAncestors(id1: string, id2: string) returns (r: Result<seq<NodeRef>>)
      requires Valid()
      ensures r.Ok? <==> id1 in nodeById && id2 in nodeById
      ensures r.Err? ==> r.error == KeyError
      ensures r.Ok? ==> Distinct(r.value) && forall x :: x in r.value <==>
        x in Ancestors(ns, nodeById[id1]) * Ancestors(ns, nodeById[id2]) && ns[x].identifier in descriptors
      ensures r == CommonSpec(id1, id2)
    {
      if id1 !in nodeById || id2 !in nodeById {
        return Err(KeyError);
      }
      var a1 := GetAncestors(ns, nodeById[id1]);
      var a2 := GetAncestors(ns, nodeById[id2]);
      var keep := set x | x in a1 * a2 && x < |ns| && ns[x].identifier in descriptors;
      r := Ok(InOrder(keep, 0, |ns|));
    }

    /** Common ancestors do not depend on the order of the two descriptors. */
    lemma CommonSpecSymmetric(id1: string, id2: string)
      ensures CommonSpec(id1, id2) == CommonSpec(id2, id1)
    {
      if id1 in nodeById && id2 in nodeById {
        var a1 := Ancestors(ns, nodeById[id1]);
        var a2 := Ancestors(ns, nodeById[id2]);
        assert a1 * a2 == a2 * a1;
      }
    }

    // ----- one similarity -----

    /** `semantic_similarity(d1, d2)` of the Resnik family. Lin, Schlicker and Jiang compute
        both log-probabilities before looking the descriptors up, and so raise
        ZeroDivisionError, when there are no objects, before any KeyError. */
    ghost function TermSpec(m: TermMeasure, d1: string, d2: string): Result<(string, real)> {
      if m != ResnikTerm && |objects| == 0 then Err(ZeroDivisionError)
      else
        var cs :- CommonSpec(d1, d2);
        match m
        case ResnikTerm => Resnik(st, ns, cs, |objects|, log10)
        case LinTerm => Lin(st, ns, cs, |objects|, log10, d1, d2)
        case SchlickerTerm => Schlicker(st, ns, cs, |objects|, log10, exp, d1, d2)
        case JiangTerm => Jiang(st, ns, cs, |objects|, log10, d1, d2)
    }

    /** Every measure of the Resnik family is symmetric in its two descriptors. */
    lemma TermSpecSymmetric(m: TermMeasure, d1: string, d2: string)
      ensures TermSpec(m, d1, d2) == TermSpec(m, d2, d1)
    {
      CommonSpecSymmetric(d1, d2);
      var c := CommonSpec(d1, d2);
      var n := |objects|;
      if (m == ResnikTerm || n > 0) && c.Ok? {
        match m
        case ResnikTerm =>
          assert TermSpec(m, d1, d2) == Resnik(st, ns, c.value, n, log10) == TermSpec(m, d2, d1);
        case LinTerm =>
          LinSymmetric(st, ns, c.value, n, log10, d1, d2);
          assert TermSpec(m, d1, d2) == Lin(st, ns, c.value, n, log10, d1, d2);
          assert TermSpec(m, d2, d1) == Lin(st, ns, c.value, n, log10, d2, d1);
        case SchlickerTerm =>
          SchlickerSymmetric(st, ns, c.value, n, log10, exp, d1, d2);
          assert TermSpec(m, d1, d2) == Schlicker(st, ns, c.value, n, log10, exp, d1, d2);
          assert TermSpec(m, d2, d1) == Schlicker(st, ns, c.value, n, log10, exp, d2, d1);
        case JiangTerm =>
          JiangSymmetric(st, ns, c.value, n, log10, d1, d2);
          assert TermSpec(m, d1, d2) == Jiang(st, ns, c.value, n, log10, d1, d2);
          assert TermSpec(m, d2, d1) == Jiang(st, ns, c.value, n, log10, d2, d1);
      }
    }

    method DescriptorSimilarity(m: TermMeasure, d1: string, d2: string) returns (r: Result<(string, real)>)
      requires Valid()
      ensures r == TermSpec(m, d1, d2)
    {
      if m != ResnikTerm && |objects| == 0 {
        return Err(ZeroDivisionError);
      }
      var cs := CommonAncestors(d1, d2);
      if cs.Err? {
        return Err(cs.error);
      }
      match m
      case ResnikTerm => r := Resnik(st, ns, cs.value, |objects|, log10);
      case LinTerm => r := Lin(st, ns, cs.value, |objects|, log10, d1, d2);
      case SchlickerTerm => r := Schlicker(st, ns, cs.value, |objects|, log10, exp, d1, d2);
      case JiangTerm => r := Jiang(st, ns, cs.value, |objects|, log10, d1, d2);
    }

    /** `semantic_similarity(o1, o2)` of SimUI and SimGIC. */
    ghost function ObjectSpec(m: ObjectMeasure, o1: string, o2: string): Result<real> {
      match m
      case SimUIObject => SimUIOf(st, o1, o2)
      case SimGICObject => SimGIC(st, o1, o2)
    }

    method ObjectSimilarity(m: ObjectMeasure, o1: string, o2: string) returns (r: Result<real>)
      ensures r == ObjectSpec(m, o1, o2)
    {
      match m
      case SimUIObject => r := SimUIOf(st, o1, o2);
      case SimGICObject => r := SimGICValue(st, o1, o2);
    }

    // ----- direct annotations as descriptor indices -----

    /** The positions, in ascending order, of the direct annotations of object `i` among the
        descriptors (Python lists them in the iteration order of the set, which this model
        fixes as ascending). */
    function IdsFor(i: nat): (ks: seq<nat>)
      requires i < |objects|
      ensures forall k: nat :: k in ks <==> k < |descriptors| && descriptors[k] in Get(st.direct, objects[i])
      ensures Distinct(ks)
    {
      InOrder(set k | 0 <= k < |descriptors| && descriptors[k] in Get(st.direct, objects[i]), 0, |descriptors|)
    }

    /** Every direct annotation of every object is one of the descriptors. */
    predicate IdsOk() {
      forall i :: 0 <= i < |objects| ==> forall d :: d in Get(st.direct, objects[i]) ==> d in descriptors
    }

    function IdsMap(): (ids: map<nat, seq<nat>>)
      ensures forall i :: i in ids <==> 0 <= i < |objects|
      ensures forall i: nat :: i < |objects| ==> ids[i] == IdsFor(i)
    {
      map i: nat | i < |objects| :: IdsFor(i)
    }

    /** `__get_descriptors_ids_per_object`: for each object index, the indices of its direct
        annotations; KeyError when a direct annotation is not one of the descriptors. */
    method DescriptorsIdsPerObject() returns (r: Result<map<nat, seq<nat>>>)
      requires Valid()
      ensures r.Ok? <==> IdsOk()
      ensures r.Err? ==> r.error == KeyError
      ensures r.Ok? ==> r.value == IdsMap()
    {
      var ids: map<nat, seq<nat>> := map[];
      for i := 0 to |objects|
        invariant forall k :: k in ids <==> 0 <= k < i
        invariant forall k: nat :: k < i ==> ids[k] == IdsFor(k)
        invariant forall k :: 0 <= k < i ==> forall d :: d in Get(st.direct, objects[k]) ==> d in descriptors
      {
        var ds := Get(st.direct, objects[i]);
        if !(ds <= descriptorIndexes.Keys) {
          return Err(KeyError);
        }
        var ks := set d | d in ds :: descriptorIndexes[d];
        assert ks == set k | 0 <= k < |descriptors| && descriptors[k] in ds by {
          forall k | k in ks
            ensures 0 <= k < |descriptors| && descriptors[k] in ds
          {
            var d :| d in ds && descriptorIndexes[d] == k;
            var p :| 0 <= p < |descriptors| && descriptors[p] == d;
          }
        }
        ids := ids[i := InOrder(ks, 0, |descriptors|)];
      }
      assert ids == IdsMap();
      r := Ok(ids);
    }

    // ----- per descriptor -----

    /** The value of `semantic_similarity(descriptors[a], descriptors[b])`. */
    ghost function TermAt(m: TermMeasure, a: nat, b: nat): Result<(string, real)> {
      if a < |descriptors| && b < |descriptors| then TermSpec(m, descriptors[a], descriptors[b]) else Err(IndexError)
    }

    /** The similarity of every pair of descriptor indices, as a cell function. */
    ghost function TermCells(m: TermMeasure): (nat, nat) -> Result<(string, real)> {
      (a: nat, b: nat) => TermAt(m, a, b)
    }

    /** `cell` agrees with the similarity of every pair of descriptors. The trigger keeps the
        measure's definition out of the fill's proof until a similarity is computed. */
    ghost predicate IsTermCell(m: TermMeasure, cell: (nat, nat) -> Result<(string, real)>) {
      forall a: nat, b: nat {:trigger TermAt(m, a, b)} :: cell(a, b) == TermAt(m, a, b)
    }

    lemma TermCellsAgree(m: TermMeasure)
      ensures IsTermCell(m, TermCells(m))
    {
    }

    /** One similarity, computed. */
    method TermCell(m: TermMeasure, ghost cell: (nat, nat) -> Result<(string, real)>, a: nat, b: nat)
      returns (s: Result<(string, real)>)
      requires Valid() && IsTermCell(m, cell) && a < |descriptors| && b < |descriptors|
      ensures s == cell(a, b)
    {
      s := DescriptorSimilarity(m, descriptors[a], descriptors[b]);
      assert s == TermAt(m, a, b);
    }

    /** The ancestor-log entry of cell `(i, b)`: `(descriptors[b], ancestor, value)`. */
    ghost function Entry(cell: (nat, nat) -> Result<(string, real)>, i: nat, b: nat): LcaEntry
      requires b < |descriptors|
    {
      var c := cell(i, b);
      if c.Ok? then (descriptors[b], c.value.0, c.value.1) else (descriptors[b], "", 0.0)
    }

    /** What `lowestCommonAncestor[descriptors[i]]` receives from row `i`: the entries of
        the cells `(i, j)` for `j = i, ..., n-1`, in that order. */
    ghost function LcaRow(cell: (nat, nat) -> Result<(string, real)>, i: nat): (row: seq<LcaEntry>)
      requires i <= |descriptors|
      ensures |row| == |descriptors| - i
      ensures forall b :: i <= b < |descriptors| ==> row[b - i] == Entry(cell, i, b)
    {
      seq(|descriptors| - i, k requires 0 <= k < |descriptors| - i => Entry(cell, i, i + k))
    }

    /** The log after rows `0..i-1` have been appended to `l`. */
    ghost function LcaAfter(l: map<string, seq<LcaEntry>>, cell: (nat, nat) -> Result<(string, real)>, i: nat)
      : map<string, seq<LcaEntry>>
      requires i <= |descriptors|
    {
      if i == 0 then l
      else
        var p := LcaAfter(l, cell, i - 1);
        p[descriptors[i - 1] := GetLca(p, descriptors[i - 1]) + LcaRow(cell, i - 1)]
    }

    /** Each descriptor's list gains exactly its own row; other keys are untouched. */
    lemma {:induction false} LcaAfterRows(l: map<string, seq<LcaEntry>>, cell: (nat, nat) -> Result<(string, real)>, i: nat)
      requires Distinct(descriptors) && i <= |descriptors|
      ensures forall k :: 0 <= k < i ==>
        descriptors[k] in LcaAfter(l, cell, i) && LcaAfter(l, cell, i)[descriptors[k]] == GetLca(l, descriptors[k]) + LcaRow(cell, k)
      ensures forall key :: key !in descriptors[..i] ==> GetLca(LcaAfter(l, cell, i), key) == GetLca(l, key)
      ensures forall key :: key in LcaAfter(l, cell, i) <==> key in l || key in descriptors[..i]
    {
      LcaAfterOwn(l, cell, i);
      LcaAfterOthers(l, cell, i);
      LcaAfterKeys(l, cell, i);
    }

    lemma {:induction false} LcaAfterKeys(l: map<string, seq<LcaEntry>>, cell: (nat, nat) -> Result<(string, real)>, i: nat)
      requires i <= |descriptors|
      ensures forall key :: key in LcaAfter(l, cell, i) <==> key in l || key in descriptors[..i]
    {
      if i > 0 {
        LcaAfterKeys(l, cell, i - 1);
        assert descriptors[..i] == descriptors[..i - 1] + [descriptors[i - 1]];
      }
    }

    lemma {:induction false} LcaAfterOthers(l: map<string, seq<LcaEntry>>, cell: (nat, nat) -> Result<(string, real)>, i: nat)
      requires i <= |descriptors|
      ensures forall key :: key !in descriptors[..i] ==> GetLca(LcaAfter(l, cell, i), key) == GetLca(l, key)
    {
      if i > 0 {
        LcaAfterOthers(l, cell, i - 1);
        assert descriptors[..i] == descriptors[..i - 1] + [descriptors[i - 1]];
      }
    }

    lemma {:induction false} LcaAfterOwn(l: map<string, seq<LcaEntry>>, cell: (nat, nat) -> Result<(string, real)>, i: nat)
      requires Distinct(descriptors) && i <= |descriptors|
      ensures forall k :: 0 <= k < i ==>
        descriptors[k] in LcaAfter(l, cell, i) && LcaAfter(l, cell, i)[descriptors[k]] == GetLca(l, descriptors[k]) + LcaRow(cell, k)
    {
      if i > 0 {
        LcaAfterOwn(l, cell, i - 1);
        LcaAfterOthers(l, cell, i - 1);
        var d := descriptors[i - 1];
        assert d !in descriptors[..i - 1];
        var p := LcaAfter(l, cell, i - 1);
        assert GetLca(p, d) == GetLca(l, d);
        forall k | 0 <= k < i - 1
          ensures descriptors[k] != d
        {
          assert descriptors[k] in descriptors[..i - 1];
        }
      }
    }

    /** The number of entries the rows `0..i-1` append. */
    ghost function Appended(cell: (nat, nat) -> Result<(string, real)>, i: nat): nat
      requires i <= |descriptors|
    {
      if i == 0 then 0 else Appended(cell, i - 1) + |LcaRow(cell, i - 1)|
    }

    /** The whole fill appends `n(n+1)/2` entries, one per cell of the upper triangle. */
    lemma {:induction false} AppendedTotal(cell: (nat, nat) -> Result<(string, real)>)
      ensures 2 * Appended(cell, |descriptors|) == |descriptors| * (|descriptors| + 1)
    {
      AppendedAll(cell, |descriptors|);
      TriangleCellsTotal(|descriptors|, |descriptors|);
    }

    lemma {:induction false} AppendedAll(cell: (nat, nat) -> Result<(string, real)>, i: nat)
      requires i <= |descriptors|
      ensures Appended(cell, i) == TriangleCells(|descriptors|, i)
    {
      if i > 0 {
        AppendedAll(cell, i - 1);
      }
    }

    /** Row `i` of `compute_semantic_similarity_per_descriptor`: the cells `[i, j]` and
        `[j, i]` for `j >= i`, and the matching entries of the ancestor log. On a failure
        the cells and entries before it are kept. */
    method PerDescriptorRow(m: TermMeasure, ghost cell: (nat, nat) -> Result<(string, real)>, arr: array2<real>, i: nat)
      returns (r: Result<()>)
      requires Valid() && IsTermCell(m, cell)
      requires arr.Length0 == |descriptors| && arr.Length1 == |descriptors| && i < |descriptors|
      requires OkBefore(cell, |descriptors|, i, i)
      modifies arr, this`lowestCommonAncestor
      ensures Valid()
      ensures r.Ok? <==> OkBefore(cell, |descriptors|, i + 1, i + 1)
      ensures r.Err? ==> FirstError(cell, |descriptors|, r.error)
      ensures r.Ok? ==> forall b :: i <= b < |descriptors| ==> arr[i, b] == cell(i, b).value.1 && arr[b, i] == cell(i, b).value.1
      ensures forall x, y :: 0 <= x < |descriptors| && 0 <= y < |descriptors| && x != i && y != i ==> arr[x, y] == old(arr[x, y])
      ensures forall y :: 0 <= y < i ==> arr[i, y] == old(arr[i, y]) && arr[y, i] == old(arr[y, i])
      ensures r.Ok? ==> lowestCommonAncestor == old(lowestCommonAncestor)[descriptors[i] :=
        GetLca(old(lowestCommonAncestor), descriptors[i]) + LcaRow(cell, i)]
    {
      var vals, err := TermRowValues(m, cell, i);
      WriteRow(arr, i, seq(|vals|, k requires 0 <= k < |vals| => vals[k].1));
      var entries := seq(|vals|, k requires 0 <= k < |vals| => (descriptors[i + k], vals[k].0, vals[k].1));
      lowestCommonAncestor := AppendRow(lowestCommonAncestor, descriptors[i], entries);
      if err.Some? {
        assert OkBefore(cell, |descriptors|, i, i + |vals|);
        r := Err(err.value);
      } else {
        assert entries == LcaRow(cell, i);
        r := Ok(());
      }
    }

    /** The similarities of `descriptors[i]` with `descriptors[i..]`, in order, up to the
        first one that fails, and that failure. */
    method TermRowValues(m: TermMeasure, ghost cell: (nat, nat) -> Result<(string, real)>, i: nat)
      returns (vals: seq<(string, real)>, err: Option<Error>)
      requires Valid() && IsTermCell(m, cell) && i < |descriptors|
      ensures i + |vals| <= |descriptors|
      ensures forall b :: i <= b < i + |vals| ==> cell(i, b) == Ok(vals[b - i])
      ensures err.None? ==> i + |vals| == |descriptors|
      ensures err.Some? ==> i + |vals| < |descriptors| && cell(i, i + |vals|) == Err(err.value)
    {
      vals := [];
      err := None;
      var j := i;
      while j < |descriptors|
        invariant i <= j <= |descriptors| && |vals| == j - i
        invariant forall b :: i <= b < j ==> cell(i, b) == Ok(vals[b - i])
      {
        var s := TermCell(m, cell, i, j);
        if s.Err? {
          return vals, Some(s.error);
        }
        vals := vals + [s.value];
        j := j + 1;
      }
    }

    /** The two loops of `compute_semantic_similarity_per_descriptor` over `arr`. */
    method FillDescriptors(m: TermMeasure, ghost cell: (nat, nat) -> Result<(string, real)>, arr: array2<real>)
      returns (r: Result<()>)
      requires Valid() && IsTermCell(m, cell)
      requires arr.Length0 == |descriptors| && arr.Length1 == |descriptors|
      modifies arr, this`lowestCommonAncestor
      ensures Valid()
      ensures r.Ok? <==> AllOk(cell, |descriptors|)
      ensures r.Err? ==> FirstError(cell, |descriptors|, r.error)
      ensures r.Ok? ==> forall a, b :: 0 <= a <= b < |descriptors| ==>
        arr[a, b] == cell(a, b).value.1 && arr[b, a] == cell(a, b).value.1
      ensures r.Ok? ==> lowestCommonAncestor == LcaAfter(old(lowestCommonAncestor), cell, |descriptors|)
    {
      var n := |descriptors|;
      var i := 0;
      while i < n
        invariant 0 <= i <= n
        invariant Valid()
        invariant OkBefore(cell, n, i, i)
        invariant forall a, b :: 0 <= a < i && a <= b < n ==> arr[a, b] == cell(a, b).value.1 && arr[b, a] == cell(a, b).value.1
        invariant lowestCommonAncestor == LcaAfter(old(lowestCommonAncestor), cell, i)
      {
        var row := PerDescriptorRow(m, cell, arr, i);
        if row.Err? {
          return row;
        }
        i := i + 1;
      }
      r := Ok(());
    }

    /** `compute_semantic_similarity_per_descriptor`, followed by the measure's `normalise`.
        Every `normalise` leaves the matrix as it is; Jiang's takes `np.max` of it first,
        which raises ValueError on an empty matrix. */
    method PerDescriptor(m: TermMeasure) returns (r: Result<()>)
      requires Valid()
      modifies this`perDescriptor, this`lowestCommonAncestor
      ensures Valid()
      ensures perDescriptor != null && fresh(perDescriptor)
      ensures r.Ok? <==> AllOk(TermCells(m), |descriptors|) && !(m == JiangTerm && |descriptors| == 0)
      ensures r.Err? ==> FirstError(TermCells(m), |descriptors|, r.error) || (m == JiangTerm && |descriptors| == 0 && r.error == ValueError)
      ensures r.Ok? ==> forall a, b :: 0 <= a <= b < |descriptors| ==>
        perDescriptor[a, b] == TermCells(m)(a, b).value.1 && perDescriptor[b, a] == TermCells(m)(a, b).value.1
      ensures r.Ok? ==> lowestCommonAncestor == LcaAfter(old(lowestCommonAncestor), TermCells(m), |descriptors|)
    {
      var n := |descriptors|;
      var arr := new real[n, n]((a, b) => 0.0);
      perDescriptor := arr;
      TermCellsAgree(m);
      var res := FillDescriptors(m, TermCells(m), arr);
      if res.Err? {
        return res;
      }
      if m == JiangTerm && n == 0 {
        return Err(ValueError);
      }
      r := Ok(());
    }

    // ----- per object, disease-wise -----

    ghost function ObjectValues(m: ObjectMeasure): (nat, nat) -> Result<real> {
      (a: nat, b: nat) => if a < |objects| && b < |objects| then ObjectSpec(m, objects[a], objects[b]) else Err(IndexError)
    }

    /** The similarities of `objects[i]` with `objects[i..]`, in order, up to the first one
        that fails, and that failure. */
    method ObjectRowValues(m: ObjectMeasure, i: nat) returns (vals: seq<real>, err: Option<Error>)
      requires i < |objects|
      ensures i + |vals| <= |objects|
      ensures forall b :: i <= b < i + |vals| ==> ObjectValues(m)(i, b) == Ok(vals[b - i])
      ensures err.None? ==> i + |vals| == |objects|
      ensures err.Some? ==> i + |vals| < |objects| && ObjectValues(m)(i, i + |vals|) == Err(err.value)
    {
      vals := [];
      err := None;
      var j := i;
      while j < |objects|
        invariant i <= j <= |objects| && |vals| == j - i
        invariant forall b :: i <= b < j ==> ObjectValues(m)(i, b) == Ok(vals[b - i])
      {
        var s := ObjectSimilarity(m, objects[i], objects[j]);
        if s.Err? {
          return vals, Some(s.error);
        }
        vals := vals + [s.value];
        j := j + 1;
      }
    }

    /** Row `i` of `compute_semantic_similarity_per_object_diseasewise`. */
    method DiseasewiseRow(m: ObjectMeasure, arr: array2<real>, i: nat) returns (r: Result<()>)
      requires arr.Length0 == |objects| && arr.Length1 == |objects| && i < |objects|
      requires OkBefore(ObjectValues(m), |objects|, i, i)
      modifies arr
      ensures r.Ok? <==> OkBefore(ObjectValues(m), |objects|, i + 1, i + 1)
      ensures r.Err? ==> FirstError(ObjectValues(m), |objects|, r.error)
      ensures r.Ok? ==> forall b :: i <= b < |objects| ==>
        arr[i, b] == ObjectValues(m)(i, b).value && arr[b, i] == ObjectValues(m)(i, b).value
      ensures forall x, y :: 0 <= x < |objects| && 0 <= y < |objects| && x != i && y != i ==> arr[x, y] == old(arr[x, y])
      ensures forall y :: 0 <= y < i ==> arr[i, y] == old(arr[i, y]) && arr[y, i] == old(arr[y, i])
    {
      var n := |objects|;
      ghost var cell := ObjectValues(m);
      var vals, err := ObjectRowValues(m, i);
      WriteRow(arr, i, vals);
      if err.Some? {
        assert OkBefore(cell, n, i, i + |vals|);
        r := Err(err.value);
      } else {
        r := Ok(());
      }
    }

    /** `compute_semantic_similarity_per_object_diseasewise`. */
    method Diseasewise(m: ObjectMeasure) returns (r: Result<()>)
      requires Valid()
      modifies this`perObject
      ensures Valid()
      ensures perObject != null && fresh(perObject) && perObject.Length0 == |objects| && perObject.Length1 == |objects|
      ensures r.Ok? <==> AllOk(ObjectValues(m), |objects|)
      ensures r.Err? ==> FirstError(ObjectValues(m), |objects|, r.error)
      ensures r.Ok? ==> SymFilled(perObject, |objects|, ObjectValues(m))
    {
      var n := |objects|;
      var arr := new real[n, n]((a, b) => 0.0);
      perObject := arr;
      r := DiseasewiseRows(m, arr);
    }

    /** The row loop of the disease-wise fill, writing into `arr` only. */
    method DiseasewiseRows(m: ObjectMeasure, arr: array2<real>) returns (r: Result<()>)
      requires arr.Length0 == |objects| && arr.Length1 == |objects|
      modifies arr
      ensures r.Ok? <==> AllOk(ObjectValues(m), |objects|)
      ensures r.Err? ==> FirstError(ObjectValues(m), |objects|, r.error)
      ensures r.Ok? ==> SymFilled(arr, |objects|, ObjectValues(m))
    {
      var n := |objects|;
      ghost var cell := ObjectValues(m);
      var i := 0;
      while i < n
        invariant 0 <= i <= n
        invariant OkBefore(cell, n, i, i)
        invariant forall a, b :: 0 <= a < i && a <= b < n ==> arr[a, b] == cell(a, b).value && arr[b, a] == cell(a, b).value
      {
        var row := DiseasewiseRow(m, arr, i);
        if row.Err? {
          return row;
        }
        i := i + 1;
      }
      r := Ok(());
    }

    // ----- per object, term-wise -----

    /** The cell function of the term-wise fill, over the descriptor matrix as it stands. */
    ghost function TermwiseValues(strategy: string): (nat, nat) -> Result<real>
      requires Valid()
      reads this, perDescriptor
    {
      var M := if perDescriptor == null then [] else Contents(perDescriptor);
      var ids := IdsMap();
      (a: nat, b: nat) => TermwiseCell(strategy, M, |descriptors|, ids, a, b)
    }

    /** `compute_semantic_similarity_per_object_termwise` without the statistics file. The
        descriptor matrix is read only when there is at least one object, and raises
        AttributeError if it was never computed. */
    method Termwise(strategy: string) returns (r: Result<()>)
      requires Valid()
      modifies this`perObject
      ensures Valid()
      ensures perObject != null && fresh(perObject) && perObject.Length0 == |objects| && perObject.Length1 == |objects|
      ensures !IdsOk() ==> r == Err(KeyError)
      ensures IdsOk() && |objects| > 0 && perDescriptor == null ==> r == Err(AttributeError)
      ensures IdsOk() && (|objects| == 0 || perDescriptor != null) ==>
        && (r.Ok? <==> AllOk(TermwiseValues(strategy), |objects|))
        && (r.Err? ==> FirstError(TermwiseValues(strategy), |objects|, r.error))
        && (r.Ok? ==> SymFilled(perObject, |objects|, TermwiseValues(strategy)))
    {
      var n := |objects|;
      var arr := new real[n, n]((a, b) => 0.0);
      perObject := arr;
      var ids := DescriptorsIdsPerObject();
      if ids.Err? {
        return Err(ids.error);
      }
      if n == 0 {
        return Ok(());
      }
      if perDescriptor == null {
        return Err(AttributeError);
      }
      var M := Contents(perDescriptor);
      var cell := (a: nat, b: nat) => TermwiseCell(strategy, M, |descriptors|, ids.value, a, b);
      assert cell == TermwiseValues(strategy);
      r := FillSymmetric(cell, arr);
    }
  }

  /** `log[key]` extended by `entries`, one append at a time, as a `defaultdict(list)`
      does: the key appears with the first entry. */
  function AppendRow(log: map<string, seq<LcaEntry>>, key: string, entries: seq<LcaEntry>): (r: map<string, seq<LcaEntry>>)
    ensures entries == [] ==> r == log
    ensures entries != [] ==> r.Keys == log.Keys + {key} && r[key] == GetLca(log, key) + entries
    ensures forall k :: k in log && k != key ==> r[k] == log[k]
  {
    if entries == [] then log else log[key := GetLca(log, key) + entries]
  }

  /** Writes `vals` into row `i` from column `i` on, and symmetrically into column `i`. */
  method WriteRow(arr: array2<real>, i: nat, vals: seq<real>)
    requires arr.Length0 == arr.Length1 && i + |vals| <= arr.Length0
    modifies arr
    ensures forall b :: i <= b < i + |vals| ==> arr[i, b] == vals[b - i] && arr[b, i] == vals[b - i]
    ensures forall x, y ::
              && 0 <= x < arr.Length0 && 0 <= y < arr.Length1
              && !(x == i && i <= y < i + |vals|) && !(y == i && i <= x < i + |vals|)
              ==> arr[x, y] == old(arr[x, y])
  {
    for k := 0 to |vals|
      invariant forall b :: i <= b < i + k ==> arr[i, b] == vals[b - i] && arr[b, i] == vals[b - i]
      invariant forall x, y ::
                  && 0 <= x < arr.Length0 && 0 <= y < arr.Length1
                  && !(x == i && i <= y < i + k) && !(y == i && i <= x < i + k)
                  ==> arr[x, y] == old(arr[x, y])
    {
      arr[i, i + k] := vals[k];
      arr[i + k, i] := vals[k];
    }
  }

  /** Row `i` of a symmetric fill by a cell function. */
  method FillRow(cell: (nat, nat) -> Result<real>, arr: array2<real>, i: nat) returns (r: Result<()>)
    requires arr.Length0 == arr.Length1 && i < arr.Length0
    requires OkBefore(cell, arr.Length0, i, i)
    modifies arr
    ensures r.Ok? <==> OkBefore(cell, arr.Length0, i + 1, i + 1)
    ensures r.Err? ==> FirstError(cell, arr.Length0, r.error)
    ensures r.Ok? ==> forall b :: i <= b < arr.Length0 ==> arr[i, b] == cell(i, b).value && arr[b, i] == cell(i, b).value
    ensures forall x, y :: 0 <= x < arr.Length0 && 0 <= y < arr.Length0 && x != i && y != i ==> arr[x, y] == old(arr[x, y])
    ensures forall y :: 0 <= y < i ==> arr[i, y] == old(arr[i, y]) && arr[y, i] == old(arr[y, i])
  {
    var n := arr.Length0;
    for j := i to n
      invariant OkBefore(cell, n, i, j)
      invariant forall b :: i <= b < j ==> arr[i, b] == cell(i, b).value && arr[b, i] == cell(i, b).value
      invariant forall x, y :: 0 <= x < n && 0 <= y < n && x != i && y != i ==> arr[x, y] == old(arr[x, y])
      invariant forall y :: 0 <= y < i ==> arr[i, y] == old(arr[i, y]) && arr[y, i] == old(arr[y, i])
    {
      var s := cell(i, j);
      if s.Err? {
        return Err(s.error);
      }
      arr[i, j] := s.value;
      arr[j, i] := s.value;
    }
    r := Ok(());
  }

  /** The two nested loops of a symmetric fill: `[i, j]` and `[j, i]` for every `i <= j`,
      row by row, stopping at the first cell without a value. */
  method FillSymmetric(cell: (nat, nat) -> Result<real>, arr: array2<real>) returns (r: Result<()>)
    requires arr.Length0 == arr.Length1
    modifies arr
    ensures r.Ok? <==> AllOk(cell, arr.Length0)
    ensures r.Err? ==> FirstError(cell, arr.Length0, r.error)
    ensures r.Ok? ==> SymFilled(arr, arr.Length0, cell)
  {
    var n := arr.Length0;
    var i := 0;
    while i < n
      invariant 0 <= i <= n
      invariant OkBefore(cell, n, i, i)
      invariant forall a, b :: 0 <= a < i && a <= b < n ==> arr[a, b] == cell(a, b).value && arr[b, a] == cell(a, b).value
    {
      var row := FillRow(cell, arr, i);
      if row.Err? {
        return row;
      }
      i := i + 1;
    }
    r := Ok(());
  }
}
