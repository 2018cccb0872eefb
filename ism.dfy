/** The ISM measure of `similarity_measures.py`: a transition matrix P over the annotated
    descriptors, the spread A of each object's annotations onto the thesaurus leaves, the
    leaf profile B = W[leaves]·A, the random-walk contribution RWC on the upper triangle and
    the final combination with a given similarity matrix HSM. The walk itself is left out:
    W is given. */
module IsmMeasure {
  import opened Wrappers
  import opened Strings
  import opened Thesaurus
  import opened Annotations
  import opened Measures
  import opened SemanticSimilarities

  /** A float64 entry of RWC or ISM: a finite value, or the nan / inf that numpy leaves,
      with a warning, when a denominator is zero. */
  datatype Float = Fin(v: real) | NonFinite

  /** numpy's `a / b` on float64. */
  function Divide(a: real, b: real): (r: Float)
    ensures r.Fin? <==> b != 0.0
    ensures r.Fin? ==> r.v * b == a
  {
    if b == 0.0 then NonFinite else Fin(a / b)
  }

  /** `0.5 * (x + h)`, a nan or inf staying one. */
  function HalfSum(x: Float, h: real): (r: Float)
    ensures r.Fin? <==> x.Fin?
    ensures r.Fin? ==> r.v + r.v == x.v + h
  {
    if x.Fin? then Fin(0.5 * (x.v + h)) else NonFinite
  }

  // ----- the descriptors and the leaves -----

  /** `[i for i in ds if len(annotation.get_objects_per_descriptor(i)) > 0]`. */
  function Annotated(st: AnnState, ds: seq<string>): (r: seq<string>)
    ensures forall d :: d in r <==> d in ds && |Get(st.descriptors, d)| > 0
    ensures Distinct(ds) ==> Distinct(r)
  {
    if ds == [] then []
    else
      var rest := Annotated(st, ds[1..]);
      assert forall d :: d in ds <==> d == ds[0] || d in ds[1..];
      if |Get(st.descriptors, ds[0])| > 0 then [ds[0]] + rest else rest
  }

  /** The positions, from `k` on, of the descriptors whose thesaurus node has no children,
      in increasing order. */
  function LeafPositions(ns: seq<Node>, nodeById: map<string, NodeRef>, ds: seq<string>, k: nat): (r: seq<nat>)
    requires k <= |ds|
    requires forall d :: d in ds ==> d in nodeById && nodeById[d] < |ns|
    ensures forall x :: x in r <==> k <= x < |ds| && ns[nodeById[ds[x]]].children == {}
    ensures forall a :: 0 <= a < |r| ==> k <= r[a] < |ds|
    ensures forall a, b :: 0 <= a < b < |r| ==> r[a] < r[b]
    decreases |ds| - k
  {
    if k == |ds| then []
    else
      var rest := LeafPositions(ns, nodeById, ds, k + 1);
      forall b | 0 <= b < |rest| ensures k < rest[b] {
        assert rest[b] in rest;
      }
      if ns[nodeById[ds[k]]].children == {} then [k] + rest else rest
  }

  /** The identifiers of the nodes of a list. */
  function IdsOf(ns: seq<Node>, hs: seq<NodeRef>): set<string>
    requires forall k :: 0 <= k < |hs| ==> hs[k] < |ns|
  {
    set k | 0 <= k < |hs| :: ns[hs[k]].identifier
  }

  /** `[h.get_identifier() for h in hs if h.get_identifier() in ds]`. */
  function KidIdentifiers(ns: seq<Node>, ds: seq<string>, hs: seq<NodeRef>): (r: seq<string>)
    requires forall k :: 0 <= k < |hs| ==> hs[k] < |ns|
    ensures forall x :: x in r <==> x in ds && x in IdsOf(ns, hs)
  {
    if hs == [] then []
    else
      var rest := KidIdentifiers(ns, ds, hs[1..]);
      assert IdsOf(ns, hs) == {ns[hs[0]].identifier} + IdsOf(ns, hs[1..]) by {
        forall x | x in IdsOf(ns, hs) ensures x == ns[hs[0]].identifier || x in IdsOf(ns, hs[1..]) {
          var k :| 0 <= k < |hs| && ns[hs[k]].identifier == x;
          if k > 0 {
            assert hs[1..][k - 1] == hs[k];
          }
        }
        forall x | x in IdsOf(ns, hs[1..]) ensures x in IdsOf(ns, hs) {
          var k :| 0 <= k < |hs[1..]| && ns[hs[1..][k]].identifier == x;
          assert hs[k + 1] == hs[1..][k];
        }
      }
      if ns[hs[0]].identifier in ds then [ns[hs[0]].identifier] + rest else rest
  }

  // ----- sums of annotation counts -----

  /** The number of annotations of each descriptor of `xs`, summed (duplicates included). */
  function CountSum(st: AnnState, xs: seq<string>): nat {
    if xs == [] then 0 else |Get(st.descriptors, xs[0])| + CountSum(st, xs[1..])
  }

  /** Adding one more descriptor at the end of the list. */
  lemma {:induction false} CountSumSnoc(st: AnnState, xs: seq<string>, x: string)
    ensures CountSum(st, xs + [x]) == CountSum(st, xs) + |Get(st.descriptors, x)|
  {
    if xs != [] {
      assert (xs + [x])[1..] == xs[1..] + [x];
      CountSumSnoc(st, xs[1..], x);
    }
  }

  /** Each term is at most the sum. */
  lemma {:induction false} CountSumMember(st: AnnState, xs: seq<string>, k: nat)
    requires k < |xs|
    ensures |Get(st.descriptors, xs[k])| <= CountSum(st, xs)
  {
    if k > 0 {
      CountSumMember(st, xs[1..], k - 1);
    }
  }

  /** A weight summed over a finite set. */
  ghost function SetSum<T>(s: set<T>, w: T -> nat): nat
    decreases |s|
  {
    if s == {} then 0
    else
      var x :| x in s;
      w(x) + SetSum(s - {x}, w)
  }

  /** The set sum does not depend on which element is taken first. */
  lemma {:induction false} SetSumRemove<T>(s: set<T>, w: T -> nat, y: T)
    requires y in s
    ensures SetSum(s, w) == w(y) + SetSum(s - {y}, w)
    decreases |s|
  {
    var x :| x in s && SetSum(s, w) == w(x) + SetSum(s - {x}, w);
    if x != y {
      SetSumRemove(s - {x}, w, y);
      SetSumRemove(s - {y}, w, x);
      assert s - {x} - {y} == s - {y} - {x};
    }
  }

  /** A weight summed along a list of node handles. */
  function ListSum(hs: seq<NodeRef>, w: NodeRef -> nat): nat {
    if hs == [] then 0 else w(hs[0]) + ListSum(hs[1..], w)
  }

  /** Along a list without repetitions, the sum is the sum over the set of its elements. */
  lemma {:induction false} ListSumIsSetSum(hs: seq<NodeRef>, w: NodeRef -> nat)
    requires forall i, j :: 0 <= i < j < |hs| ==> hs[i] != hs[j]
    ensures ListSum(hs, w) == SetSum(Elems(hs), w)
  {
    if hs != [] {
      var s := Elems(hs);
      assert forall i, j :: 0 <= i < j < |hs[1..]| ==> hs[1..][i] != hs[1..][j] by {
        forall i, j | 0 <= i < j < |hs[1..]| ensures hs[1..][i] != hs[1..][j] {
          assert hs[1..][i] == hs[i + 1] && hs[1..][j] == hs[j + 1];
        }
      }
      ListSumIsSetSum(hs[1..], w);
      assert Elems(hs[1..]) == s - {hs[0]} by {
        forall h | h in s - {hs[0]} ensures h in hs[1..] {
          var k :| 0 <= k < |hs| && hs[k] == h;
          assert hs[1..][k - 1] == h;
        }
        forall h | h in hs[1..] ensures h != hs[0] {
          var k :| 0 <= k < |hs[1..]| && hs[1..][k] == h;
          assert hs[k + 1] == h;
        }
      }
      SetSumRemove(s, w, hs[0]);
    }
  }

  /** Along the filtered identifiers, the counts add up to the node weights along the list. */
  lemma {:induction false} KidCountSum(st: AnnState, ns: seq<Node>, ds: seq<string>, hs: seq<NodeRef>)
    requires forall k :: 0 <= k < |hs| ==> hs[k] < |ns|
    ensures CountSum(st, KidIdentifiers(ns, ds, hs)) == ListSum(hs, Weight(st, ns, ds))
  {
    if hs != [] {
      KidCountSum(st, ns, ds, hs[1..]);
    }
  }

  /** `len(annotation.get_objects_per_descriptor(c))` for a node whose identifier is one of
      `ds`, and 0 for any other node. */
  function Weight(st: AnnState, ns: seq<Node>, ds: seq<string>): NodeRef -> nat {
    (h: NodeRef) => if h < |ns| && ns[h].identifier in ds then |Get(st.descriptors, ns[h].identifier)| else 0
  }

  /** The objects annotated to any descriptor of `ids`. */
  function Union(st: AnnState, ids: set<string>): set<string> {
    set o, x | x in ids && o in Get(st.descriptors, x) :: o
  }

  /** `(1 - gone / nv) * nc / nu`: the share `__initialisePmatrix` gives a child with `nc`
      annotations, among children with `nu` in all, of a parent with `nv` annotations of
      which `gone` are on no child. */
  function ShareOf(gone: nat, nv: nat, nc: nat, nu: nat): real
    requires nv > 0 && nu > 0
  {
    (1.0 - gone as real / nv as real) * ((nc as real) / (nu as real))
  }

  /** With `gone <= nv` and `0 < nc <= nu`, the share is in [0, 1]. */
  lemma UnitShare(gone: nat, nv: nat, nc: nat, nu: nat)
    requires gone <= nv && 0 < nv && 0 < nc <= nu
    ensures 0.0 <= ShareOf(gone, nv, nc, nu) <= 1.0
  {
    Ratio(gone, nv);
    Ratio(nc, nu);
    var x, y := 1.0 - gone as real / nv as real, (nc as real) / (nu as real);
    UnitProduct(x, y);
  }

  lemma UnitProduct(x: real, y: real)
    requires 0.0 <= x <= 1.0 && 0.0 <= y <= 1.0
    ensures 0.0 <= x * y <= 1.0
  {
    assert 0.0 <= x * y by { MulNonneg(x, y); }
    assert x * y <= y by {
      MulNonneg(1.0 - x, y);
      assert (1.0 - x) * y == y - x * y;
    }
  }

  lemma MulNonneg(x: real, y: real)
    requires 0.0 <= x && 0.0 <= y
    ensures 0.0 <= x * y
  {
  }

  // ----- the transition shares of `__initialisePmatrix` -----

  /** `children` as a set: the identifiers, among `ds`, of the nodes of `kids`. */
  ghost function KidIds(ns: seq<Node>, ds: seq<string>, kids: set<NodeRef>): set<string>
    requires forall h :: h in kids ==> h < |ns|
  {
    set h | h in kids && ns[h].identifier in ds :: ns[h].identifier
  }

  /** `N_u`: the annotation counts of the nodes of `kids` whose identifier is one of `ds`. */
  ghost function Nu(st: AnnState, ns: seq<Node>, ds: seq<string>, kids: set<NodeRef>): nat {
    SetSum(kids, Weight(st, ns, ds))
  }

  /** `N_v*`: the objects annotated to `dv` and to none of the children. */
  ghost function NvStar(st: AnnState, ns: seq<Node>, ds: seq<string>, dv: string, kids: set<NodeRef>): set<string>
    requires forall h :: h in kids ==> h < |ns|
  {
    Get(st.descriptors, dv) - Union(st, KidIds(ns, ds, kids))
  }

  /** A child's count is part of `N_u`. */
  lemma NuCovers(st: AnnState, ns: seq<Node>, ds: seq<string>, kids: set<NodeRef>, dc: string)
    requires forall h :: h in kids ==> h < |ns|
    requires dc in KidIds(ns, ds, kids)
    ensures |Get(st.descriptors, dc)| <= Nu(st, ns, ds, kids)
  {
    var h :| h in kids && ns[h].identifier in ds && ns[h].identifier == dc;
    SetSumRemove(kids, Weight(st, ns, ds), h);
  }

  /** `P[c, v]` for a child `dc` of `dv`: `(1 - |N_v*| / N_v) * N_c / N_u`. */
  ghost function Share(st: AnnState, ns: seq<Node>, ds: seq<string>, dv: string, kids: set<NodeRef>, dc: string): real
    requires forall h :: h in kids ==> h < |ns|
    requires dc in KidIds(ns, ds, kids)
    requires 0 < |Get(st.descriptors, dv)| && 0 < |Get(st.descriptors, dc)|
  {
    NuCovers(st, ns, ds, kids, dc);
    ShareOf(|NvStar(st, ns, ds, dv, kids)|, |Get(st.descriptors, dv)|, |Get(st.descriptors, dc)|, Nu(st, ns, ds, kids))
  }

  /** Each share is in [0, 1]. */
  lemma ShareUnit(st: AnnState, ns: seq<Node>, ds: seq<string>, dv: string, kids: set<NodeRef>, dc: string)
    requires forall h :: h in kids ==> h < |ns|
    requires dc in KidIds(ns, ds, kids)
    requires 0 < |Get(st.descriptors, dv)| && 0 < |Get(st.descriptors, dc)|
    ensures 0.0 <= Share(st, ns, ds, dv, kids, dc) <= 1.0
  {
    NuCovers(st, ns, ds, kids, dc);
    SubsetCard(NvStar(st, ns, ds, dv, kids), Get(st.descriptors, dv));
    UnitShare(|NvStar(st, ns, ds, dv, kids)|, |Get(st.descriptors, dv)|, |Get(st.descriptors, dc)|, Nu(st, ns, ds, kids));
  }

  /** What `__initialisePmatrix` relies on: every descriptor is annotated and names a node
      of a well-formed thesaurus. */
  ghost predicate PReady(st: AnnState, ns: seq<Node>, nodeById: map<string, NodeRef>, ds: seq<string>) {
    && WellFormed(ns)
    && (forall id :: id in nodeById ==> nodeById[id] < |ns|)
    && (forall d :: d in ds ==> d in nodeById && |Get(st.descriptors, d)| > 0)
  }

  /** The children of the node of the `v`-th descriptor. */
  ghost function KidsOf(ns: seq<Node>, nodeById: map<string, NodeRef>, ds: seq<string>, v: nat): (r: set<NodeRef>)
    requires WellFormed(ns) && (forall id :: id in nodeById ==> nodeById[id] < |ns|)
    requires v < |ds| && ds[v] in nodeById
    ensures forall h :: h in r ==> h < |ns|
  {
    ns[nodeById[ds[v]]].children
  }

  /** The cells `P[c, v]` that `__initialisePmatrix` writes: the diagonal cell of a leaf,
      and the cells of the children of any other descriptor. */
  ghost predicate Written(st: AnnState, ns: seq<Node>, nodeById: map<string, NodeRef>, ds: seq<string>, c: nat, v: nat)
    requires PReady(st, ns, nodeById, ds) && c < |ds| && v < |ds|
  {
    (c == v && KidsOf(ns, nodeById, ds, v) == {}) || ds[c] in KidIds(ns, ds, KidsOf(ns, nodeById, ds, v))
  }

  /** `P[c, v]` once `__initialisePmatrix` has run: a leaf keeps all its mass, any other
      descriptor passes to each child its share of the children's annotation counts. */
  ghost function PSpec(st: AnnState, ns: seq<Node>, nodeById: map<string, NodeRef>, ds: seq<string>, c: nat, v: nat): real
    requires PReady(st, ns, nodeById, ds) && c < |ds| && v < |ds|
  {
    var kids := KidsOf(ns, nodeById, ds, v);
    if ds[c] in KidIds(ns, ds, kids) then Share(st, ns, ds, ds[v], kids, ds[c])
    else if c == v && kids == {} then 1.0
    else 0.0
  }

  /** Every transition probability is in [0, 1]. */
  lemma PSpecUnit(st: AnnState, ns: seq<Node>, nodeById: map<string, NodeRef>, ds: seq<string>, c: nat, v: nat)
    requires PReady(st, ns, nodeById, ds) && c < |ds| && v < |ds|
    ensures 0.0 <= PSpec(st, ns, nodeById, ds, c, v) <= 1.0
  {
    var kids := KidsOf(ns, nodeById, ds, v);
    if ds[c] in KidIds(ns, ds, kids) {
      ShareUnit(st, ns, ds, ds[v], kids, ds[c]);
    }
  }

  /** Off the children's cells, `P[c, v]` is 1 on a leaf's diagonal and 0 elsewhere. */
  lemma OtherCell(st: AnnState, ns: seq<Node>, nodeById: map<string, NodeRef>, ds: seq<string>, c: nat, v: nat)
    requires PReady(st, ns, nodeById, ds) && c < |ds| && v < |ds|
    requires ds[c] !in KidIds(ns, ds, KidsOf(ns, nodeById, ds, v))
    ensures Written(st, ns, nodeById, ds, c, v) <==> c == v && KidsOf(ns, nodeById, ds, v) == {}
    ensures PSpec(st, ns, nodeById, ds, c, v) == if Written(st, ns, nodeById, ds, c, v) then 1.0 else 0.0
  {
  }

  /** A child's cell holds its share, computed from `N_u` and `N_v*`. */
  lemma ChildCell(st: AnnState, ns: seq<Node>, nodeById: map<string, NodeRef>, ds: seq<string>, c: nat, v: nat,
                  nu: nat, gone: set<string>)
    requires PReady(st, ns, nodeById, ds) && c < |ds| && v < |ds|
    requires ds[c] in KidIds(ns, ds, KidsOf(ns, nodeById, ds, v))
    requires nu == Nu(st, ns, ds, KidsOf(ns, nodeById, ds, v))
    requires gone == NvStar(st, ns, ds, ds[v], KidsOf(ns, nodeById, ds, v))
    ensures Written(st, ns, nodeById, ds, c, v) && nu > 0 && |Get(st.descriptors, ds[v])| > 0
    ensures PSpec(st, ns, nodeById, ds, c, v)
      == ShareOf(|gone|, |Get(st.descriptors, ds[v])|, |Get(st.descriptors, ds[c])|, nu)
  {
    NuCovers(st, ns, ds, KidsOf(ns, nodeById, ds, v), ds[c]);
  }

  /** `spec` and `written` are `PSpec` and `Written`; each is unfolded only for a cell at
      hand. */
  ghost predicate IsPSpec(st: AnnState, ns: seq<Node>, nodeById: map<string, NodeRef>, ds: seq<string>,
                          spec: (nat, nat) -> real, written: (nat, nat) -> bool)
    requires PReady(st, ns, nodeById, ds)
  {
    && (forall c: nat, v: nat {:trigger PSpec(st, ns, nodeById, ds, c, v)} ::
          c < |ds| && v < |ds| ==> spec(c, v) == PSpec(st, ns, nodeById, ds, c, v))
    && (forall c: nat, v: nat {:trigger Written(st, ns, nodeById, ds, c, v)} ::
          c < |ds| && v < |ds| ==> written(c, v) == Written(st, ns, nodeById, ds, c, v))
  }

  /** `PSpec` and `Written` as functions of the cell. */
  ghost function PCells(st: AnnState, ns: seq<Node>, nodeById: map<string, NodeRef>, ds: seq<string>): (nat, nat) -> real {
    (c: nat, v: nat) => if PReady(st, ns, nodeById, ds) && c < |ds| && v < |ds| then PSpec(st, ns, nodeById, ds, c, v) else 0.0
  }

  ghost function WrittenCells(st: AnnState, ns: seq<Node>, nodeById: map<string, NodeRef>, ds: seq<string>): (nat, nat) -> bool {
    (c: nat, v: nat) => PReady(st, ns, nodeById, ds) && c < |ds| && v < |ds| && Written(st, ns, nodeById, ds, c, v)
  }

  lemma PCellsAgree(st: AnnState, ns: seq<Node>, nodeById: map<string, NodeRef>, ds: seq<string>)
    requires PReady(st, ns, nodeById, ds)
    ensures IsPSpec(st, ns, nodeById, ds, PCells(st, ns, nodeById, ds), WrittenCells(st, ns, nodeById, ds))
  {
  }

  // ----- the column sums of P -----

  /** `P[0, v] + ... + P[n - 1, v]` once `__initialisePmatrix` has run. */
  ghost function ColumnSum(st: AnnState, ns: seq<Node>, nodeById: map<string, NodeRef>, ds: seq<string>, v: nat, n: nat): real
    requires PReady(st, ns, nodeById, ds) && v < |ds| && n <= |ds|
  {
    if n == 0 then 0.0 else ColumnSum(st, ns, nodeById, ds, v, n - 1) + PSpec(st, ns, nodeById, ds, n - 1, v)
  }

  /** The annotation count of a descriptor, as a weight on identifiers. */
  function Count(st: AnnState): string -> nat {
    (x: string) => |Get(st.descriptors, x)|
  }

  /** The weights of those of the first `n` entries of `ds` that are in `k`. */
  function CountIn(ds: seq<string>, k: set<string>, w: string -> nat, n: nat): nat
    requires n <= |ds|
  {
    if n == 0 then 0 else CountIn(ds, k, w, n - 1) + (if ds[n - 1] in k then w(ds[n - 1]) else 0)
  }

  /** No two nodes of `kids` carry the same descriptor identifier, so each child
      descriptor's count enters `N_u` once. */
  ghost predicate DistinctKidIds(ns: seq<Node>, ds: seq<string>, kids: set<NodeRef>) {
    forall h1, h2 ::
      (h1 in kids && h2 in kids && h1 < |ns| && h2 < |ns|
       && ns[h1].identifier == ns[h2].identifier && ns[h1].identifier in ds) ==> h1 == h2
  }

  /** Two shares of the same column add up like their counts. */
  lemma ShareAdd(gone: nat, nv: nat, s: nat, nc: nat, t: nat, nu: nat)
    requires nv > 0 && nu > 0 && t == s + nc
    ensures ShareOf(gone, nv, s, nu) + ShareOf(gone, nv, nc, nu) == ShareOf(gone, nv, t, nu)
  {
    var x := 1.0 - gone as real / nv as real;
    assert s as real / nu as real + nc as real / nu as real == (s + nc) as real / nu as real;
    assert x * (s as real / nu as real) + x * (nc as real / nu as real) == x * ((s + nc) as real / nu as real);
  }

  /** No count, no share. */
  lemma ShareZero(gone: nat, nv: nat, nu: nat)
    requires nv > 0 && nu > 0
    ensures ShareOf(gone, nv, 0, nu) == 0.0
  {
    assert 0 as real / nu as real == 0.0;
  }

  /** All of `N_u` takes the whole share `1 - gone / nv`. */
  lemma ShareWhole(gone: nat, nv: nat, nu: nat)
    requires nv > 0 && nu > 0
    ensures ShareOf(gone, nv, nu, nu) == 1.0 - gone as real / nv as real
  {
    assert nu as real / nu as real == 1.0;
  }

  /** Along the descriptors, a column with descriptor children holds the share of the
      children seen so far. */
  lemma {:induction false} ColumnSumShares(st: AnnState, ns: seq<Node>, nodeById: map<string, NodeRef>, ds: seq<string>,
                                           v: nat, n: nat, gone: nat, nv: nat, nu: nat)
    requires PReady(st, ns, nodeById, ds) && v < |ds| && n <= |ds|
    requires KidIds(ns, ds, KidsOf(ns, nodeById, ds, v)) != {}
    requires nu == Nu(st, ns, ds, KidsOf(ns, nodeById, ds, v)) && nu > 0
    requires gone == |NvStar(st, ns, ds, ds[v], KidsOf(ns, nodeById, ds, v))|
    requires nv == |Get(st.descriptors, ds[v])| && nv > 0
    ensures ColumnSum(st, ns, nodeById, ds, v, n)
      == ShareOf(gone, nv, CountIn(ds, KidIds(ns, ds, KidsOf(ns, nodeById, ds, v)), Count(st), n), nu)
  {
    if n == 0 {
      ShareZero(gone, nv, nu);
    } else {
      ColumnSumShares(st, ns, nodeById, ds, v, n - 1, gone, nv, nu);
      var k := KidIds(ns, ds, KidsOf(ns, nodeById, ds, v));
      var d := if ds[n - 1] in k then Count(st)(ds[n - 1]) else 0;
      ColumnCell(st, ns, nodeById, ds, v, n - 1, gone, nu);
      ShareAdd(gone, nv, CountIn(ds, k, Count(st), n - 1), d, CountIn(ds, k, Count(st), n), nu);
    }
  }

  /** A cell of a column with descriptor children is the share of the cell's count if the
      cell is a child, and a share of nothing otherwise. */
  lemma ColumnCell(st: AnnState, ns: seq<Node>, nodeById: map<string, NodeRef>, ds: seq<string>,
                   v: nat, c: nat, gone: nat, nu: nat)
    requires PReady(st, ns, nodeById, ds) && v < |ds| && c < |ds|
    requires KidIds(ns, ds, KidsOf(ns, nodeById, ds, v)) != {}
    requires nu == Nu(st, ns, ds, KidsOf(ns, nodeById, ds, v)) && nu > 0
    requires gone == |NvStar(st, ns, ds, ds[v], KidsOf(ns, nodeById, ds, v))|
    requires |Get(st.descriptors, ds[v])| > 0
    ensures PSpec(st, ns, nodeById, ds, c, v)
      == ShareOf(gone, |Get(st.descriptors, ds[v])|,
                 if ds[c] in KidIds(ns, ds, KidsOf(ns, nodeById, ds, v)) then Count(st)(ds[c]) else 0, nu)
  {
    var kids := KidsOf(ns, nodeById, ds, v);
    if ds[c] in KidIds(ns, ds, kids) {
      ChildCell(st, ns, nodeById, ds, c, v, nu, NvStar(st, ns, ds, ds[v], kids));
    } else {
      assert kids != {};
      ShareZero(gone, |Get(st.descriptors, ds[v])|, nu);
    }
  }

  /** A column without descriptor children is the leaf's 1 on the diagonal, or all 0. */
  lemma {:induction false} ColumnSumNoChild(st: AnnState, ns: seq<Node>, nodeById: map<string, NodeRef>, ds: seq<string>, v: nat, n: nat)
    requires PReady(st, ns, nodeById, ds) && v < |ds| && n <= |ds|
    requires KidIds(ns, ds, KidsOf(ns, nodeById, ds, v)) == {}
    ensures ColumnSum(st, ns, nodeById, ds, v, n) == if KidsOf(ns, nodeById, ds, v) == {} && v < n then 1.0 else 0.0
  {
    if n > 0 {
      ColumnSumNoChild(st, ns, nodeById, ds, v, n - 1);
    }
  }

  /** In a list without repetitions, each entry is new to the prefix before it. */
  lemma ElemsSnoc(ds: seq<string>, n: nat)
    requires Distinct(ds) && 0 < n <= |ds|
    ensures Elems(ds[..n]) == Elems(ds[..n - 1]) + {ds[n - 1]}
    ensures ds[n - 1] !in Elems(ds[..n - 1])
  {
    var pre := ds[..n - 1];
    assert ds[..n] == pre + [ds[n - 1]];
    forall j | 0 <= j < |pre| ensures pre[j] != ds[n - 1] {
      assert pre[j] == ds[j];
    }
  }

  /** Over a list without repetitions, the indexed sum is the set sum of the entries seen. */
  lemma {:induction false} CountInPrefix(ds: seq<string>, k: set<string>, w: string -> nat, n: nat)
    requires Distinct(ds) && n <= |ds|
    ensures CountIn(ds, k, w, n) == SetSum(k * Elems(ds[..n]), w)
  {
    if n == 0 {
      assert k * Elems(ds[..0]) == {};
    } else {
      CountInPrefix(ds, k, w, n - 1);
      var a := k * Elems(ds[..n - 1]);
      var y := ds[n - 1];
      ElemsSnoc(ds, n);
      if y in k {
        assert k * Elems(ds[..n]) == a + {y};
        SetSumRemove(a + {y}, w, y);
        assert (a + {y}) - {y} == a;
      } else {
        assert k * Elems(ds[..n]) == a;
      }
    }
  }

  /** Over all of a list without repetitions, the indexed sum of a set of entries is its
      set sum. */
  lemma CountInAll(ds: seq<string>, k: set<string>, w: string -> nat)
    requires Distinct(ds) && forall x :: x in k ==> x in ds
    ensures CountIn(ds, k, w, |ds|) == SetSum(k, w)
  {
    CountInPrefix(ds, k, w, |ds|);
    assert ds[..|ds|] == ds;
    assert k * Elems(ds) == k;
  }

  /** Taking one node out of `kids` takes its identifier out of the child identifiers,
      when it is a descriptor, and nothing else. */
  lemma KidIdsRemove(ns: seq<Node>, ds: seq<string>, kids: set<NodeRef>, h: NodeRef)
    requires forall k :: k in kids ==> k < |ns|
    requires DistinctKidIds(ns, ds, kids) && h in kids
    ensures DistinctKidIds(ns, ds, kids - {h})
    ensures ns[h].identifier in ds ==>
      && ns[h].identifier in KidIds(ns, ds, kids)
      && KidIds(ns, ds, kids) - {ns[h].identifier} == KidIds(ns, ds, kids - {h})
    ensures ns[h].identifier !in ds ==> KidIds(ns, ds, kids) == KidIds(ns, ds, kids - {h})
  {
  }

  /** With distinct child identifiers, `N_u` is the sum of the children's counts. */
  lemma {:induction false} NuIsKidCount(st: AnnState, ns: seq<Node>, ds: seq<string>, kids: set<NodeRef>)
    requires forall h :: h in kids ==> h < |ns|
    requires DistinctKidIds(ns, ds, kids)
    ensures Nu(st, ns, ds, kids) == SetSum(KidIds(ns, ds, kids), Count(st))
    decreases |kids|
  {
    if kids == {} {
      assert KidIds(ns, ds, kids) == {};
    } else {
      var h :| h in kids;
      var rest := kids - {h};
      var w, count := Weight(st, ns, ds), Count(st);
      var ids, restIds := KidIds(ns, ds, kids), KidIds(ns, ds, rest);
      KidIdsRemove(ns, ds, kids, h);
      NuIsKidCount(st, ns, ds, rest);
      assert Nu(st, ns, ds, kids) == w(h) + Nu(st, ns, ds, rest) by {
        SetSumRemove<NodeRef>(kids, w, h);
      }
      var id := ns[h].identifier;
      if id in ds {
        assert w(h) == count(id);
        SetSumRemove(ids, count, id);
      } else {
        assert w(h) == 0;
        assert ids == restIds;
      }
    }
  }

  /** The mass `__initialisePmatrix` puts in column `v`: `1 - |N_v*| / N_v` shared among the
      descriptor children, 1 for a leaf, and 0 for a node none of whose children is a
      descriptor. */
  lemma PColumnMass(st: AnnState, ns: seq<Node>, nodeById: map<string, NodeRef>, ds: seq<string>, v: nat)
    requires PReady(st, ns, nodeById, ds) && Distinct(ds) && v < |ds|
    requires DistinctKidIds(ns, ds, KidsOf(ns, nodeById, ds, v))
    ensures KidIds(ns, ds, KidsOf(ns, nodeById, ds, v)) != {} ==>
      ColumnSum(st, ns, nodeById, ds, v, |ds|)
        == 1.0 - |NvStar(st, ns, ds, ds[v], KidsOf(ns, nodeById, ds, v))| as real / |Get(st.descriptors, ds[v])| as real
    ensures KidsOf(ns, nodeById, ds, v) == {} ==> ColumnSum(st, ns, nodeById, ds, v, |ds|) == 1.0
    ensures KidsOf(ns, nodeById, ds, v) != {} && KidIds(ns, ds, KidsOf(ns, nodeById, ds, v)) == {} ==>
      ColumnSum(st, ns, nodeById, ds, v, |ds|) == 0.0
  {
    var kids := KidsOf(ns, nodeById, ds, v);
    var k := KidIds(ns, ds, kids);
    if k == {} {
      ColumnSumNoChild(st, ns, nodeById, ds, v, |ds|);
    } else {
      var dc :| dc in k;
      assert dc in ds;
      NuCovers(st, ns, ds, kids, dc);
      var nu := Nu(st, ns, ds, kids);
      var gone := |NvStar(st, ns, ds, ds[v], kids)|;
      assert ds[v] in ds;
      ColumnSumShares(st, ns, nodeById, ds, v, |ds|, gone, |Get(st.descriptors, ds[v])|, nu);
      CountInAll(ds, k, Count(st));
      NuIsKidCount(st, ns, ds, kids);
      ShareWhole(gone, |Get(st.descriptors, ds[v])|, nu);
    }
  }

  /** `idx` is `ds`'s index map. */
  ghost predicate IndexesOf(ds: seq<string>, idx: map<string, nat>) {
    && idx.Keys == (set d | d in ds)
    && (forall d :: d in idx ==> idx[d] < |ds| && ds[idx[d]] == d)
    && (forall c :: 0 <= c < |ds| ==> idx[ds[c]] == c)
  }

  /** `__initialisePmatrix` on a matrix `P` that is zero wherever it does not write. */
  method FillP(P: array2<real>, ghost spec: (nat, nat) -> real, ghost written: (nat, nat) -> bool,
               st: AnnState, ns: seq<Node>, nodeById: map<string, NodeRef>,
               ds: seq<string>, idx: map<string, nat>, leaves: seq<nat>)
    requires PReady(st, ns, nodeById, ds) && IndexesOf(ds, idx) && IsPSpec(st, ns, nodeById, ds, spec, written)
    requires forall j :: 0 <= j < |leaves| ==> leaves[j] < |ds| && KidsOf(ns, nodeById, ds, leaves[j]) == {}
    requires forall v :: 0 <= v < |ds| && KidsOf(ns, nodeById, ds, v) == {} ==> v in leaves
    requires P.Length0 == |ds| && P.Length1 == |ds|
    requires forall c: nat, v: nat :: c < |ds| && v < |ds| && !written(c, v) ==> P[c, v] == 0.0
    modifies P
    ensures forall c: nat, v: nat :: c < |ds| && v < |ds| ==> P[c, v] == spec(c, v)
  {
    for k := 0 to |leaves|
      invariant forall c: nat, v: nat :: c < |ds| && v < |ds| && !written(c, v) ==> P[c, v] == 0.0
      invariant forall j :: 0 <= j < k ==> P[leaves[j], leaves[j]] == 1.0
    {
      OtherCell(st, ns, nodeById, ds, leaves[k], leaves[k]);
      P[leaves[k], leaves[k]] := 1.0;
    }
    forall v | 0 <= v < |ds| && KidsOf(ns, nodeById, ds, v) == {} ensures P[v, v] == 1.0 {
      assert v in leaves;
    }
    for v := 0 to |ds|
      invariant forall c: nat, w: nat :: c < |ds| && v <= w < |ds| && !written(c, w) ==> P[c, w] == 0.0
      invariant forall w :: v <= w < |ds| && KidsOf(ns, nodeById, ds, w) == {} ==> P[w, w] == 1.0
      invariant forall c: nat, w: nat :: c < |ds| && w < v ==> P[c, w] == spec(c, w)
    {
      PColumn(P, spec, written, st, ns, nodeById, ds, idx, v);
    }
  }

  /** The loop body of `__initialisePmatrix` for the `v`-th descriptor: the tally over its
      children, then the writes. */
  method PColumn(P: array2<real>, ghost spec: (nat, nat) -> real, ghost written: (nat, nat) -> bool,
                 st: AnnState, ns: seq<Node>, nodeById: map<string, NodeRef>,
                 ds: seq<string>, idx: map<string, nat>, v: nat)
    requires PReady(st, ns, nodeById, ds) && IndexesOf(ds, idx) && IsPSpec(st, ns, nodeById, ds, spec, written)
    requires P.Length0 == |ds| && P.Length1 == |ds| && v < |ds|
    requires forall c: nat :: c < |ds| && !written(c, v) ==> P[c, v] == 0.0
    requires KidsOf(ns, nodeById, ds, v) == {} ==> P[v, v] == 1.0
    modifies P
    ensures forall c: nat :: c < |ds| ==> P[c, v] == spec(c, v)
    ensures forall c, w :: 0 <= c < P.Length0 && 0 <= w < P.Length1 && w != v ==> P[c, w] == old(P[c, w])
  {
    var writes := ColumnWrites(spec, written, st, ns, nodeById, ds, idx, v);
    WriteColumn(P, v, writes, (c: nat) => spec(c, v));
  }

  /** The tally of `__initialisePmatrix` over the children of the `v`-th descriptor, and the
      cells it then writes with their values. */
  method ColumnWrites(ghost spec: (nat, nat) -> real, ghost written: (nat, nat) -> bool,
                      st: AnnState, ns: seq<Node>, nodeById: map<string, NodeRef>,
                      ds: seq<string>, idx: map<string, nat>, v: nat)
    returns (writes: seq<(nat, real)>)
    requires PReady(st, ns, nodeById, ds) && IndexesOf(ds, idx) && IsPSpec(st, ns, nodeById, ds, spec, written)
    requires v < |ds|
    ensures forall k :: 0 <= k < |writes| ==> writes[k].0 < |ds| && writes[k].1 == spec(writes[k].0, v)
    ensures forall c: nat :: c < |ds| && (forall k :: 0 <= k < |writes| ==> writes[k].0 != c) ==>
      && (written(c, v) <==> c == v && KidsOf(ns, nodeById, ds, v) == {})
      && spec(c, v) == if written(c, v) then 1.0 else 0.0
  {
    var d := ds[v];
    var kids := ns[nodeById[d]].children;
    assert kids == KidsOf(ns, nodeById, ds, v);
    var children := Children(st, ns, ds, kids);
    var nu, nvStar, counts := Tally(st, children, Get(st.descriptors, d));
    assert nvStar == NvStar(st, ns, ds, d, kids);
    ShareFacts(spec, written, st, ns, nodeById, ds, idx, v, children, nu, nvStar, counts);
    writes := ShareList(idx, children, |Get(st.descriptors, d)|, nu, nvStar, counts);
    ColumnFacts(spec, written, st, ns, nodeById, ds, idx, v, children, writes);
  }

  /** The writes of `__initialisePmatrix` for the `v`-th descriptor: each pair is a cell and
      its `P` value, and a cell no pair names is 1 on a leaf's diagonal and 0 elsewhere. */
  lemma ColumnFacts(spec: (nat, nat) -> real, written: (nat, nat) -> bool,
                    st: AnnState, ns: seq<Node>, nodeById: map<string, NodeRef>,
                    ds: seq<string>, idx: map<string, nat>, v: nat, children: seq<string>,
                    writes: seq<(nat, real)>)
    requires PReady(st, ns, nodeById, ds) && IndexesOf(ds, idx) && IsPSpec(st, ns, nodeById, ds, spec, written)
    requires v < |ds| && Elems(children) == KidIds(ns, ds, KidsOf(ns, nodeById, ds, v))
    requires |writes| == |children|
    requires forall k :: 0 <= k < |children| ==>
      && children[k] in idx && writes[k].0 == idx[children[k]] && writes[k].1 == spec(idx[children[k]], v)
    ensures forall k :: 0 <= k < |writes| ==> writes[k].0 < |ds| && writes[k].1 == spec(writes[k].0, v)
    ensures forall c: nat :: c < |ds| && (forall k :: 0 <= k < |writes| ==> writes[k].0 != c) ==>
      && (written(c, v) <==> c == v && KidsOf(ns, nodeById, ds, v) == {})
      && spec(c, v) == if written(c, v) then 1.0 else 0.0
  {
    forall k | 0 <= k < |writes| ensures writes[k].0 < |ds| {
      assert children[k] in ds by { assert children[k] in Elems(children); }
    }
    forall c: nat | c < |ds| && (forall k :: 0 <= k < |writes| ==> writes[k].0 != c)
      ensures && (written(c, v) <==> c == v && KidsOf(ns, nodeById, ds, v) == {})
              && spec(c, v) == if written(c, v) then 1.0 else 0.0
    {
      OtherCell(st, ns, nodeById, ds, c, v);
    }
  }

  /** The pairs `(index of c, share of c)` for the children `c`, in order. */
  function ShareList(idx: map<string, nat>, children: seq<string>, nv: nat, nu: nat,
                     nvStar: set<string>, counts: map<string, nat>): (writes: seq<(nat, real)>)
    requires nv > 0 && (children != [] ==> nu > 0)
    requires forall k :: 0 <= k < |children| ==> children[k] in idx && children[k] in counts
    ensures |writes| == |children|
    ensures forall k :: 0 <= k < |children| ==>
      writes[k] == (idx[children[k]], ShareOf(|nvStar|, nv, counts[children[k]], nu))
  {
    seq(|children|, k requires 0 <= k < |children| =>
      (idx[children[k]], ShareOf(|nvStar|, nv, counts[children[k]], nu)))
  }

  /** Along `children`, every share is the child's `P` cell. */
  lemma ShareFacts(spec: (nat, nat) -> real, written: (nat, nat) -> bool,
                   st: AnnState, ns: seq<Node>, nodeById: map<string, NodeRef>,
                   ds: seq<string>, idx: map<string, nat>, v: nat, children: seq<string>,
                   nu: nat, nvStar: set<string>, counts: map<string, nat>)
    requires PReady(st, ns, nodeById, ds) && IndexesOf(ds, idx) && IsPSpec(st, ns, nodeById, ds, spec, written)
    requires v < |ds| && Elems(children) == KidIds(ns, ds, KidsOf(ns, nodeById, ds, v))
    requires nu == Nu(st, ns, ds, KidsOf(ns, nodeById, ds, v))
    requires nvStar == NvStar(st, ns, ds, ds[v], KidsOf(ns, nodeById, ds, v))
    requires forall x :: x in counts <==> x in children
    requires forall x :: x in counts ==> counts[x] == |Get(st.descriptors, x)|
    ensures |Get(st.descriptors, ds[v])| > 0 && (children != [] ==> nu > 0)
    ensures forall k :: 0 <= k < |children| ==>
      && children[k] in idx && idx[children[k]] < |ds| && ds[idx[children[k]]] == children[k] && children[k] in counts
      && spec(idx[children[k]], v)
         == ShareOf(|nvStar|, |Get(st.descriptors, ds[v])|, counts[children[k]], nu)
  {
    if children != [] {
      assert children[0] in Elems(children);
      ShareValue(spec, written, st, ns, nodeById, ds, idx, v, children[0], nu, nvStar, counts);
    }
    forall k | 0 <= k < |children|
      ensures && children[k] in idx && idx[children[k]] < |ds| && ds[idx[children[k]]] == children[k] && children[k] in counts
              && spec(idx[children[k]], v)
                 == ShareOf(|nvStar|, |Get(st.descriptors, ds[v])|, counts[children[k]], nu)
    {
      assert children[k] in Elems(children);
      ShareValue(spec, written, st, ns, nodeById, ds, idx, v, children[k], nu, nvStar, counts);
    }
  }

  /** The share written for a child `c` is its `P` cell. */
  lemma ShareValue(spec: (nat, nat) -> real, written: (nat, nat) -> bool,
                   st: AnnState, ns: seq<Node>, nodeById: map<string, NodeRef>,
                   ds: seq<string>, idx: map<string, nat>, v: nat, c: string,
                   nu: nat, nvStar: set<string>, counts: map<string, nat>)
    requires PReady(st, ns, nodeById, ds) && IndexesOf(ds, idx) && IsPSpec(st, ns, nodeById, ds, spec, written)
    requires v < |ds| && c in KidIds(ns, ds, KidsOf(ns, nodeById, ds, v))
    requires nu == Nu(st, ns, ds, KidsOf(ns, nodeById, ds, v))
    requires nvStar == NvStar(st, ns, ds, ds[v], KidsOf(ns, nodeById, ds, v))
    requires c in counts && counts[c] == |Get(st.descriptors, c)|
    ensures c in idx && idx[c] < |ds| && nu > 0 && |Get(st.descriptors, ds[v])| > 0
    ensures spec(idx[c], v)
      == ShareOf(|nvStar|, |Get(st.descriptors, ds[v])|, counts[c], nu)
  {
    assert c in ds;
    ChildCell(st, ns, nodeById, ds, idx[c], v, nu, nvStar);
  }

  /** The write loop of `__initialisePmatrix`: `P[c, v] = value` for each pair in turn. Each
      value is `col` of its cell, so a repeated cell is written the same value again. */
  method WriteColumn(P: array2<real>, v: nat, writes: seq<(nat, real)>, ghost col: nat -> real)
    requires v < P.Length1
    requires forall k :: 0 <= k < |writes| ==> writes[k].0 < P.Length0 && writes[k].1 == col(writes[k].0)
    modifies P
    ensures forall k :: 0 <= k < |writes| ==> P[writes[k].0, v] == writes[k].1
    ensures forall c, w ::
              && 0 <= c < P.Length0 && 0 <= w < P.Length1
              && (w != v || forall k :: 0 <= k < |writes| ==> writes[k].0 != c)
              ==> P[c, w] == old(P[c, w])
  {
    for k := 0 to |writes|
      invariant forall j :: 0 <= j < k ==> P[writes[j].0, v] == writes[j].1
      invariant forall c, w ::
                  && 0 <= c < P.Length0 && 0 <= w < P.Length1
                  && (w != v || forall j :: 0 <= j < k ==> writes[j].0 != c)
                  ==> P[c, w] == old(P[c, w])
    {
      P[writes[k].0, v] := writes[k].1;
    }
  }

  // ----- the matrix A of `__computeA` -----

  /** `S_i` of `__computeA`: the identifiers of the childless descendants of node `h`, `h`
      itself among them when it is a leaf. */
  ghost function LeafIds(ns: seq<Node>, h: NodeRef): set<string> {
    set d | d in Descendants(ns, h) && d < |ns| && ns[d].children == {} :: ns[d].identifier
  }

  /** The exception `__computeA` raises on an annotation to `d`, if any: `get_node` of an
      identifier the thesaurus lacks, `1.0 / 0` when no descendant is childless, and the index
      lookup of a descriptor with no annotations. */
  ghost function AError(ns: seq<Node>, nodeById: map<string, NodeRef>, idx: map<string, nat>, d: string): Option<Error> {
    if d !in nodeById then Some(KeyError)
    else if |LeafIds(ns, nodeById[d])| == 0 then Some(ZeroDivisionError)
    else if d !in idx then Some(KeyError)
    else None
  }

  /** No annotation of any object makes `__computeA` raise. */
  ghost predicate AOk(st: AnnState, ns: seq<Node>, nodeById: map<string, NodeRef>, idx: map<string, nat>, objects: seq<string>) {
    forall i, d :: 0 <= i < |objects| && d in Get(st.objects, objects[i]) ==> AError(ns, nodeById, idx, d) == None
  }

  /** `A[r, i]`: `1 / |S|` when the `r`-th descriptor annotates the `i`-th object, 0 otherwise. */
  ghost function ASpec(st: AnnState, ns: seq<Node>, nodeById: map<string, NodeRef>, ds: seq<string>,
                       objects: seq<string>, r: nat, i: nat): real
    requires r < |ds| && i < |objects|
  {
    var d := ds[r];
    if d in Get(st.objects, objects[i]) && d in nodeById && |LeafIds(ns, nodeById[d])| > 0
    then 1.0 / |LeafIds(ns, nodeById[d])| as real
    else 0.0
  }

  /** What `__computeA` fills without raising, as a matrix. */
  ghost function AMatrix(st: AnnState, ns: seq<Node>, nodeById: map<string, NodeRef>, ds: seq<string>,
                         objects: seq<string>): (m: seq<seq<real>>)
    ensures |m| == |ds| && Rect(m, |objects|)
    ensures forall r, i :: 0 <= r < |ds| && 0 <= i < |objects| ==> m[r][i] == ASpec(st, ns, nodeById, ds, objects, r, i)
  {
    seq(|ds|, r requires 0 <= r < |ds| =>
      seq(|objects|, i requires 0 <= i < |objects| => ASpec(st, ns, nodeById, ds, objects, r, i)))
  }

  /** Every entry of A is in [0, 1], and a nonzero one is the reciprocal of a leaf count. */
  lemma AUnit(st: AnnState, ns: seq<Node>, nodeById: map<string, NodeRef>, ds: seq<string>,
              objects: seq<string>, r: nat, i: nat)
    requires r < |ds| && i < |objects|
    ensures 0.0 <= ASpec(st, ns, nodeById, ds, objects, r, i) <= 1.0
    ensures ASpec(st, ns, nodeById, ds, objects, r, i) != 0.0 ==>
      && ds[r] in Get(st.objects, objects[i]) && ds[r] in nodeById
      && ASpec(st, ns, nodeById, ds, objects, r, i) * (|LeafIds(ns, nodeById[ds[r]])| as real) == 1.0
  {
    var d := ds[r];
    if d in Get(st.objects, objects[i]) && d in nodeById && |LeafIds(ns, nodeById[d])| > 0 {
      Ratio(1, |LeafIds(ns, nodeById[d])|);
    }
  }

  /** A leaf spreads all its mass onto itself: its `S` is its own identifier. */
  lemma LeafSpreadsToItself(ns: seq<Node>, h: NodeRef)
    requires WellFormed(ns) && h < |ns| && ns[h].children == {}
    ensures LeafIds(ns, h) == {ns[h].identifier}
  {
    ReachStart(ChildEdges(ns), h);
    forall d | d in Descendants(ns, h) ensures d == h {
      LeafReach(ns, h, d);
    }
  }

  /** From a childless node, only the node itself is reachable. */
  lemma LeafReach(ns: seq<Node>, h: NodeRef, d: nat)
    requires WellFormed(ns) && h < |ns| && ns[h].children == {}
    requires d in Descendants(ns, h)
    ensures d == h
  {
    var e := ChildEdges(ns);
    var p :| IsPath(e, p) && p[0] == h && p[|p| - 1] == d;
    PathStaysIn(e, p, {h});
  }

  /** One more entry of a list's prefix is that entry, or one of the shorter prefix. */
  lemma InPrefixSnoc(vs: seq<string>, k: nat)
    requires k < |vs|
    ensures forall x :: x in vs[..k + 1] <==> x in vs[..k] || x == vs[k]
  {
    assert vs[..k + 1] == vs[..k] + [vs[k]];
  }

  /** The inner loop of `__computeA` for the `i`-th object: over its descriptors, in the
      set's iteration order, `A[v, i] = 1 / |S|`, stopping at the first that raises. */
  method AColumn(A: array2<real>, st: AnnState, ns: seq<Node>, nodeById: map<string, NodeRef>,
                 ds: seq<string>, idx: map<string, nat>, objects: seq<string>, i: nat)
    returns (e: Option<Error>)
    requires WellFormed(ns) && (forall id :: id in nodeById ==> nodeById[id] < |ns|) && IndexesOf(ds, idx)
    requires A.Length0 == |ds| && A.Length1 == |objects| && i < |objects|
    requires forall r :: 0 <= r < |ds| ==> A[r, i] == 0.0
    modifies A
    ensures e.None? <==> forall d :: d in Get(st.objects, objects[i]) ==> AError(ns, nodeById, idx, d) == None
    ensures e.Some? ==> exists d :: d in Get(st.objects, objects[i]) && AError(ns, nodeById, idx, d) == e
    ensures e.None? ==> forall r :: 0 <= r < |ds| ==> A[r, i] == ASpec(st, ns, nodeById, ds, objects, r, i)
    ensures forall r, j :: 0 <= r < |ds| && 0 <= j < |objects| && j != i ==> A[r, j] == old(A[r, j])
  {
    var vs := Enumerate<string>(Get(st.objects, objects[i]));
    for k := 0 to |vs|
      invariant forall q :: 0 <= q < k ==> AError(ns, nodeById, idx, vs[q]) == None
      invariant forall r :: 0 <= r < |ds| ==>
        A[r, i] == if ds[r] in vs[..k] then ASpec(st, ns, nodeById, ds, objects, r, i) else 0.0
      invariant forall r, j :: 0 <= r < |ds| && 0 <= j < |objects| && j != i ==> A[r, j] == old(A[r, j])
    {
      var v := vs[k];
      assert v in Get(st.objects, objects[i]);
      e := Spread(A, st, ns, nodeById, ds, idx, objects, i, v);
      if e.Some? {
        return;
      }
      InPrefixSnoc(vs, k);
    }
    assert vs[..|vs|] == vs;
    return None;
  }

  /** One step of that loop: `A[v, i] = 1.0 / len(S_i)` for the descriptor `v`, or the
      exception it raises first. */
  method Spread(A: array2<real>, st: AnnState, ns: seq<Node>, nodeById: map<string, NodeRef>,
                ds: seq<string>, idx: map<string, nat>, objects: seq<string>, i: nat, v: string)
    returns (e: Option<Error>)
    requires WellFormed(ns) && (forall id :: id in nodeById ==> nodeById[id] < |ns|) && IndexesOf(ds, idx)
    requires A.Length0 == |ds| && A.Length1 == |objects| && i < |objects| && v in Get(st.objects, objects[i])
    modifies A
    ensures e == AError(ns, nodeById, idx, v)
    ensures e.None? ==> idx[v] < |ds| && ds[idx[v]] == v && A[idx[v], i] == ASpec(st, ns, nodeById, ds, objects, idx[v], i)
    ensures forall q, j :: 0 <= q < |ds| && 0 <= j < |objects| && (e.Some? || q != idx[v] || j != i) ==> A[q, j] == old(A[q, j])
  {
    if v !in nodeById {
      return Some(KeyError);
    }
    var leafIds := LeafIdentifiers(ns, nodeById[v]);
    if |leafIds| == 0 {
      return Some(ZeroDivisionError);
    }
    if v !in idx {
      return Some(KeyError);
    }
    SetCell(A, idx[v], i, 1.0 / |leafIds| as real);
    return None;
  }

  /** `S_i` of `__computeA`, from the descendants `get_descendants` returns. */
  method LeafIdentifiers(ns: seq<Node>, h: NodeRef) returns (leafIds: set<string>)
    requires WellFormed(ns) && h < |ns|
    ensures leafIds == LeafIds(ns, h)
  {
    var descendants := GetDescendants(ns, h);
    leafIds := set d | d in descendants && ns[d].children == {} :: ns[d].identifier;
  }

  /** `A[r, i] = x`, leaving every other cell as it was. */
  method SetCell<T>(A: array2<T>, r: nat, i: nat, x: T)
    requires r < A.Length0 && i < A.Length1
    modifies A
    ensures A[r, i] == x
    ensures forall q, j :: 0 <= q < A.Length0 && 0 <= j < A.Length1 && (q != r || j != i) ==> A[q, j] == old(A[q, j])
  {
    A[r, i] := x;
  }

  /** `ISM.__computeA`: a fresh `nd` by `no` matrix filled object by object; the exception
      of the first annotation that raises, when one does. */
  method ComputeA(st: AnnState, ns: seq<Node>, nodeById: map<string, NodeRef>,
                  ds: seq<string>, idx: map<string, nat>, objects: seq<string>)
    returns (r: Result<array2<real>>)
    requires WellFormed(ns) && (forall id :: id in nodeById ==> nodeById[id] < |ns|) && IndexesOf(ds, idx)
    ensures r.Ok? <==> AOk(st, ns, nodeById, idx, objects)
    ensures r.Err? ==> exists i, d :: 0 <= i < |objects| && d in Get(st.objects, objects[i])
                                     && AError(ns, nodeById, idx, d) == Some(r.error)
    ensures r.Ok? ==> fresh(r.value) && Contents(r.value) == AMatrix(st, ns, nodeById, ds, objects)
  {
    var A := Filled(|ds|, |objects|, 0.0);
    for i := 0 to |objects|
      invariant forall j, d :: 0 <= j < i && d in Get(st.objects, objects[j]) ==> AError(ns, nodeById, idx, d) == None
      invariant forall q, j :: 0 <= q < |ds| && 0 <= j < |objects| ==>
        A[q, j] == if j < i then ASpec(st, ns, nodeById, ds, objects, q, j) else 0.0
    {
      var e := AColumn(A, st, ns, nodeById, ds, idx, objects, i);
      if e.Some? {
        return Err(e.value);
      }
    }
    ghost var m, am := Contents(A), AMatrix(st, ns, nodeById, ds, objects);
    forall q | 0 <= q < |ds| ensures m[q] == am[q] {
      assert |m[q]| == |am[q]|;
    }
    return Ok(A);
  }


  // ----- B = W[leaves] · A -----

  /** The dot product of two vectors of one length. */
  function Dot(xs: seq<real>, ys: seq<real>): real
    requires |xs| == |ys|
  {
    if |xs| == 0 then 0.0 else xs[0] * ys[0] + Dot(xs[1..], ys[1..])
  }

  /** The dot product does not depend on the order of its operands. */
  lemma {:induction false} DotSymmetric(xs: seq<real>, ys: seq<real>)
    requires |xs| == |ys|
    ensures Dot(xs, ys) == Dot(ys, xs)
  {
    if |xs| > 0 {
      DotSymmetric(xs[1..], ys[1..]);
    }
  }

  /** `W[leaves]`: the rows of `m` at the given positions, in order. */
  function RowsAt(m: seq<seq<real>>, ps: seq<nat>): (r: seq<seq<real>>)
    requires forall k :: 0 <= k < |ps| ==> ps[k] < |m|
    ensures |r| == |ps| && forall k :: 0 <= k < |ps| ==> r[k] == m[ps[k]]
  {
    seq(|ps|, k requires 0 <= k < |ps| => m[ps[k]])
  }

  /** The matrix product `m · a` of an `|m|` by `|a|` matrix and an `|a|` by `cols` one. */
  function Product(m: seq<seq<real>>, a: seq<seq<real>>, cols: nat): (r: seq<seq<real>>)
    requires Rect(m, |a|) && Rect(a, cols)
    ensures |r| == |m| && Rect(r, cols)
  {
    seq(|m|, k requires 0 <= k < |m| =>
      seq(cols, o requires 0 <= o < cols => Dot(m[k], Column(a, cols, o))))
  }

  /** The `n` by `n` identity matrix, the `W` of a walk that never moves. */
  function Identity(n: nat): (m: seq<seq<real>>)
    ensures |m| == n && Rect(m, n)
  {
    seq(n, i => seq(n, j => if i == j then 1.0 else 0.0))
  }

  /** A row of zeros with a single 1 at position `p` picks entry `p`. */
  lemma {:induction false} DotUnit(row: seq<real>, col: seq<real>, p: nat)
    requires |row| == |col| && p < |row|
    requires forall j :: 0 <= j < |row| ==> row[j] == if j == p then 1.0 else 0.0
    ensures Dot(row, col) == col[p]
  {
    if p == 0 {
      DotZero(row[1..], col[1..]);
    } else {
      DotUnit(row[1..], col[1..], p - 1);
    }
  }

  /** A row of zeros gives 0. */
  lemma {:induction false} DotZero(row: seq<real>, col: seq<real>)
    requires |row| == |col|
    requires forall j :: 0 <= j < |row| ==> row[j] == 0.0
    ensures Dot(row, col) == 0.0
  {
    if |row| > 0 {
      DotZero(row[1..], col[1..]);
    }
  }

  /** With `W` the identity, `B` is the rows of `A` at the leaves: each leaf's profile is the
      mass spread onto it directly. */
  lemma ProductIdentity(a: seq<seq<real>>, cols: nat, ps: seq<nat>)
    requires Rect(a, cols)
    requires forall k :: 0 <= k < |ps| ==> ps[k] < |a|
    ensures Product(RowsAt(Identity(|a|), ps), a, cols) == RowsAt(a, ps)
  {
    var m := RowsAt(Identity(|a|), ps);
    var r := Product(m, a, cols);
    forall k | 0 <= k < |ps| ensures r[k] == a[ps[k]] {
      forall o | 0 <= o < cols ensures r[k][o] == a[ps[k]][o] {
        DotUnit(m[k], Column(a, cols, o), ps[k]);
      }
    }
  }

  /** Entries of `m` and `a` that are not negative give a product whose entries are not
      negative. */
  lemma ProductNonneg(m: seq<seq<real>>, a: seq<seq<real>>, cols: nat)
    requires Rect(m, |a|) && Rect(a, cols)
    requires forall k, j :: 0 <= k < |m| && 0 <= j < |a| ==> 0.0 <= m[k][j]
    requires forall j, o :: 0 <= j < |a| && 0 <= o < cols ==> 0.0 <= a[j][o]
    ensures forall k, o :: 0 <= k < |m| && 0 <= o < cols ==> 0.0 <= Product(m, a, cols)[k][o]
  {
    forall k, o | 0 <= k < |m| && 0 <= o < cols ensures 0.0 <= Product(m, a, cols)[k][o] {
      DotNonneg(m[k], Column(a, cols, o));
    }
  }

  lemma {:induction false} DotNonneg(xs: seq<real>, ys: seq<real>)
    requires |xs| == |ys|
    requires forall j :: 0 <= j < |xs| ==> 0.0 <= xs[j] && 0.0 <= ys[j]
    ensures 0.0 <= Dot(xs, ys)
  {
    if |xs| > 0 {
      MulNonneg(xs[0], ys[0]);
      DotNonneg(xs[1..], ys[1..]);
    }
  }

  // ----- RWC of `__genewise` -----

  /** `RWC[i][j]`: `b_i · b_j / (Σ b_i + Σ b_j - b_i · b_j)` over the columns `b_i`, `b_j` of
      `B`; nan or inf when the denominator is 0. */
  function RwcValue(b: seq<seq<real>>, n: nat, i: nat, j: nat): Float
    requires Rect(b, n) && i < n && j < n
  {
    var ci, cj := Column(b, n, i), Column(b, n, j);
    Divide(Dot(ci, cj), (Sum(ci) + Sum(cj)) - Dot(ci, cj))
  }

  /** The value for `(i, j)` is the value for `(j, i)`. */
  lemma RwcSymmetric(b: seq<seq<real>>, n: nat, i: nat, j: nat)
    requires Rect(b, n) && i < n && j < n
    ensures RwcValue(b, n, i, j) == RwcValue(b, n, j, i)
  {
    DotSymmetric(Column(b, n, i), Column(b, n, j));
  }

  /** With every entry of `B` in [0, 1], a finite RWC value is in [0, 1]: the common part
      `b_i · b_j` is at most either sum. */
  lemma RwcUnit(b: seq<seq<real>>, n: nat, i: nat, j: nat)
    requires Rect(b, n) && i < n && j < n
    requires forall k, o :: 0 <= k < |b| && 0 <= o < n ==> 0.0 <= b[k][o] <= 1.0
    ensures RwcValue(b, n, i, j).Fin? ==> 0.0 <= RwcValue(b, n, i, j).v <= 1.0
  {
    var ci, cj := Column(b, n, i), Column(b, n, j);
    DotBelowSum(ci, cj);
    DotSymmetric(ci, cj);
    DotBelowSum(cj, ci);
    DotNonneg(ci, cj);
    var d := Dot(ci, cj);
    var den := (Sum(ci) + Sum(cj)) - d;
    if den != 0.0 {
      assert 0.0 <= d <= den;
      Ratio01(d, den);
    }
  }

  /** Entries in [0, 1] give `xs · ys <= Σ xs`. */
  lemma {:induction false} DotBelowSum(xs: seq<real>, ys: seq<real>)
    requires |xs| == |ys|
    requires forall j :: 0 <= j < |xs| ==> 0.0 <= xs[j] <= 1.0 && 0.0 <= ys[j] <= 1.0
    ensures Dot(xs, ys) <= Sum(xs)
  {
    if |xs| > 0 {
      UnitProduct(xs[0], ys[0]);
      assert xs[0] * ys[0] <= xs[0] by {
        MulNonneg(xs[0], 1.0 - ys[0]);
        assert xs[0] * (1.0 - ys[0]) == xs[0] - xs[0] * ys[0];
      }
      DotBelowSum(xs[1..], ys[1..]);
    }
  }

  /** `0 <= d <= den` with `den != 0` gives `d / den` in [0, 1]. */
  lemma Ratio01(d: real, den: real)
    requires 0.0 <= d <= den && den != 0.0
    ensures 0.0 <= d / den <= 1.0
  {
  }

  /** `ISM.__genewise`: `RWC[i][j]` for `j >= i`, from the column sums of `B`; the cells
      below the diagonal are not touched. */
  method Genewise(RWC: array2<Float>, b: seq<seq<real>>, n: nat)
    requires RWC.Length0 == n && RWC.Length1 == n && Rect(b, n)
    modifies RWC
    ensures forall i, j :: 0 <= i <= j < n ==> RWC[i, j] == RwcValue(b, n, i, j)
    ensures forall i, j :: 0 <= j < i < n ==> RWC[i, j] == old(RWC[i, j])
  {
    var sumCol := seq(n, j requires 0 <= j < n => Sum(Column(b, n, j)));
    for i := 0 to n
      invariant forall p, q :: 0 <= p <= q < n && p < i ==> RWC[p, q] == RwcValue(b, n, p, q)
      invariant forall p, q :: 0 <= q < p < n ==> RWC[p, q] == old(RWC[p, q])
      invariant forall p, q :: 0 <= p <= q < n && p >= i ==> RWC[p, q] == old(RWC[p, q])
    {
      var a := Column(b, n, i);
      for j := i to n
        invariant forall p, q :: 0 <= p <= q < n && p < i ==> RWC[p, q] == RwcValue(b, n, p, q)
        invariant forall q :: i <= q < j ==> RWC[i, q] == RwcValue(b, n, i, q)
        invariant forall p, q :: 0 <= q < p < n ==> RWC[p, q] == old(RWC[p, q])
        invariant forall p, q :: 0 <= p <= q < n && (p > i || (p == i && q >= j)) ==> RWC[p, q] == old(RWC[p, q])
      {
        var c := Column(b, n, j);
        var combinedSum := Dot(a, c);
        RWC[i, j] := Divide(combinedSum, (sumCol[i] + sumCol[j]) - combinedSum);
      }
    }
  }

  // ----- ISM = 0.5 * (RWC + HSM) -----

  /** The column count of a matrix given by its rows. */
  function Width(m: seq<seq<real>>): nat {
    if |m| == 0 then 0 else |m[0]|
  }

  /** numpy broadcasts an axis of length `a` against one of length `n`: they are equal, or
      one of them is 1. */
  predicate Broadcasts(a: nat, n: nat) {
    a == n || a == 1 || n == 1
  }

  /** The length of the axis that broadcasting `a` against `n` gives. */
  function BroadcastLen(a: nat, n: nat): (r: nat)
    requires Broadcasts(a, n)
    ensures a != 1 ==> r == a
    ensures n != 1 ==> r == n
  {
    if a == 1 then n else a
  }

  /** The index into an axis of length `n` that broadcasting reads at `i`: a length-1 axis
      repeats its one entry. */
  function Axis(n: nat, i: nat): nat {
    if n == 1 then 0 else i
  }

  /** The entry of `hsm` that broadcasting puts at `(i, j)`. */
  function HsmAt(hsm: seq<seq<real>>, i: nat, j: nat): real
    requires Rect(hsm, Width(hsm))
    requires i < |hsm| || |hsm| == 1
    requires j < Width(hsm) || Width(hsm) == 1
  {
    hsm[Axis(|hsm|, i)][Axis(Width(hsm), j)]
  }

  /** The entry of the `n` by `n` RWC that broadcasting puts at `(i, j)`. */
  function RwcAt(rwc: seq<seq<Float>>, n: nat, i: nat, j: nat): Float
    requires |rwc| == n && forall k :: 0 <= k < n ==> |rwc[k]| == n
    requires i < n || n == 1
    requires j < n || n == 1
  {
    rwc[Axis(n, i)][Axis(n, j)]
  }

  /** `0.5 * (RWC + HSM)` over the `n` by `n` RWC, or numpy's ValueError when the shapes do
      not broadcast. On success each axis is the longer of the two, and an axis of length 1
      of either matrix repeats along the other's. */
  function Combine(rwc: seq<seq<Float>>, hsm: seq<seq<real>>, n: nat): (r: Result<seq<seq<Float>>>)
    requires |rwc| == n && forall i :: 0 <= i < n ==> |rwc[i]| == n
    requires Rect(hsm, Width(hsm))
    ensures r.Ok? <==> Broadcasts(|hsm|, n) && Broadcasts(Width(hsm), n)
    ensures r.Ok? ==> |r.value| == BroadcastLen(|hsm|, n)
                      && forall i :: 0 <= i < |r.value| ==> |r.value[i]| == BroadcastLen(Width(hsm), n)
    ensures r.Ok? ==> forall i, j :: 0 <= i < BroadcastLen(|hsm|, n) && 0 <= j < BroadcastLen(Width(hsm), n) ==>
      r.value[i][j].Fin? == RwcAt(rwc, n, i, j).Fin? &&
      (RwcAt(rwc, n, i, j).Fin? ==> r.value[i][j].v + r.value[i][j].v == RwcAt(rwc, n, i, j).v + HsmAt(hsm, i, j))
  {
    if !(Broadcasts(|hsm|, n) && Broadcasts(Width(hsm), n)) then Err(ValueError)
    else
      var rows, cols := BroadcastLen(|hsm|, n), BroadcastLen(Width(hsm), n);
      Ok(seq(rows, i requires 0 <= i < rows =>
           seq(cols, j requires 0 <= j < cols => HalfSum(RwcAt(rwc, n, i, j), HsmAt(hsm, i, j)))))
  }

  /** The RWC entry that broadcasting puts at `(i, j)` once `__genewise` has run: the genewise
      value on and above the diagonal, the initial 0 below it. */
  function GenewiseAt(b: seq<seq<real>>, n: nat, i: nat, j: nat): Float
    requires Rect(b, n)
    requires i < n || n == 1
    requires j < n || n == 1
  {
    var p, q := Axis(n, i), Axis(n, j);
    if p <= q then RwcValue(b, n, p, q) else Fin(0.0)
  }

  /** Combining the genewise RWC with HSM gives, at each entry, the half sum of the genewise
      entry and HSM's. */
  lemma CombineGenewise(rwc: seq<seq<Float>>, b: seq<seq<real>>, hsm: seq<seq<real>>, n: nat, c: seq<seq<Float>>)
    requires |rwc| == n && (forall i :: 0 <= i < n ==> |rwc[i]| == n) && Rect(b, n)
    requires Rect(hsm, Width(hsm))
    requires forall i, j :: 0 <= i <= j < n ==> rwc[i][j] == RwcValue(b, n, i, j)
    requires forall i, j :: 0 <= j < i < n ==> rwc[i][j] == Fin(0.0)
    requires Combine(rwc, hsm, n) == Ok(c)
    ensures Broadcasts(|hsm|, n) && Broadcasts(Width(hsm), n)
    ensures |c| == BroadcastLen(|hsm|, n) && forall i :: 0 <= i < |c| ==> |c[i]| == BroadcastLen(Width(hsm), n)
    ensures forall i, j :: 0 <= i < BroadcastLen(|hsm|, n) && 0 <= j < BroadcastLen(Width(hsm), n) ==>
      c[i][j] == HalfSum(GenewiseAt(b, n, i, j), HsmAt(hsm, i, j))
  {
    forall i, j | 0 <= i < BroadcastLen(|hsm|, n) && 0 <= j < BroadcastLen(Width(hsm), n)
      ensures c[i][j] == HalfSum(GenewiseAt(b, n, i, j), HsmAt(hsm, i, j))
    {
      assert RwcAt(rwc, n, i, j) == GenewiseAt(b, n, i, j);
    }
  }

  /** The entries of a float array, row by row. */
  function FloatContents(a: array2<Float>): (m: seq<seq<Float>>)
    reads a
    ensures |m| == a.Length0 && forall i :: 0 <= i < |m| ==> |m[i]| == a.Length1
    ensures forall i, j :: 0 <= i < a.Length0 && 0 <= j < a.Length1 ==> m[i][j] == a[i, j]
  {
    seq(a.Length0, i requires 0 <= i < a.Length0 reads a =>
      seq(a.Length1, j requires 0 <= j < a.Length1 reads a => a[i, j]))
  }

  /** `np.zeros((n, m))`: a fresh `n` by `m` matrix holding `x` everywhere. */
  method Filled<T>(n: nat, m: nat, x: T) returns (a: array2<T>)
    ensures fresh(a) && a.Length0 == n && a.Length1 == m
    ensures forall i, j :: 0 <= i < n && 0 <= j < m ==> a[i, j] == x
  {
    a := new T[n, m]((i, j) => x);
  }

  /** `ISM(thesaurus, annotation, HSM)`. `W` of the walk is not a field: `Ism` takes it. */
  class ISM {
    const st: AnnState
    const ns: seq<Node>
    const nodeById: map<string, NodeRef>
    const objects: seq<string>
    const descriptors: seq<string>
    const objectIndexes: map<string, nat>
    const descriptorIndexes: map<string, nat>
    const leaves: seq<nat>
    const HSM: seq<seq<real>>
    const P: array2<real>
    const RWC: array2<Float>
    var B: seq<seq<real>>
    var combined: seq<seq<Float>>

    /** What `__init__` establishes and nothing later changes. */
    ghost predicate Valid() {
      && WellFormed(ns)
      && (forall id :: id in nodeById ==> nodeById[id] < |ns|)
      && (forall d :: d in descriptors ==> d in nodeById && |Get(st.descriptors, d)| > 0)
      && objectIndexes.Keys == (set o | o in objects)
      && (forall i :: 0 <= i < |objects| ==> objectIndexes[objects[i]] == i)
      && descriptorIndexes.Keys == (set d | d in descriptors)
      && (forall i :: 0 <= i < |descriptors| ==> descriptorIndexes[descriptors[i]] == i)
      && (forall d :: d in descriptorIndexes ==> descriptorIndexes[d] < |descriptors| && descriptors[descriptorIndexes[d]] == d)
      && leaves == LeafPositions(ns, nodeById, descriptors, 0)
      && P.Length0 == |descriptors| && P.Length1 == |descriptors|
      && RWC.Length0 == |objects| && RWC.Length1 == |objects|
      && Rect(HSM, Width(HSM))
    }

    /** Valid, with P zero off the cells `__initialisePmatrix` writes and RWC zero below the
        diagonal, which `__genewise` never writes. */
    ghost predicate Invariant()
      reads P, RWC
    {
      && Valid()
      && (forall c, v :: 0 <= c < |descriptors| && 0 <= v < |descriptors| && !Written(st, ns, nodeById, descriptors, c, v) ==> P[c, v] == 0.0)
      && (forall i, j :: 0 <= j < i < |objects| ==> RWC[i, j] == Fin(0.0))
    }

    /** `ISM.__init__`, once every annotated descriptor is known to the thesaurus; `objs` and
        `descs` are the keys of the two annotation maps in their iteration order. */
    constructor (st: AnnState, ns: seq<Node>, nodeById: map<string, NodeRef>,
                 objs: seq<string>, descs: seq<string>, HSM: seq<seq<real>>)
      requires WellFormed(ns) && forall id :: id in nodeById ==> nodeById[id] < |ns|
      requires Distinct(objs) && (set o | o in objs) == st.objects.Keys
      requires Distinct(descs) && (set d | d in descs) == st.descriptors.Keys
      requires forall d :: d in Annotated(st, descs) ==> d in nodeById
      requires Rect(HSM, Width(HSM))
      ensures fresh(P) && fresh(RWC)
      ensures Invariant()
      ensures this.st == st && this.ns == ns && this.nodeById == nodeById && this.HSM == HSM
      ensures objects == objs && descriptors == Annotated(st, descs)
      ensures forall c, v :: 0 <= c < P.Length0 && 0 <= v < P.Length1 ==> P[c, v] == 0.0
      ensures forall i, j :: 0 <= i < RWC.Length0 && 0 <= j < RWC.Length1 ==> RWC[i, j] == Fin(0.0)
      ensures |B| == |leaves| && forall k :: 0 <= k < |B| ==> B[k] == seq(|objs|, _ => 0.0)
      ensures |combined| == |descriptors| && forall k :: 0 <= k < |combined| ==> combined[k] == seq(|descriptors|, _ => Fin(0.0))
    {
      var ds := Annotated(st, descs);
      this.st := st;
      this.ns := ns;
      this.nodeById := nodeById;
      this.HSM := HSM;
      objects := objs;
      descriptors := ds;
      var oi := Indexes(objs);
      var di := Indexes(ds);
      IndexesBijection(objs, oi);
      IndexesBijection(ds, di);
      objectIndexes := oi;
      descriptorIndexes := di;
      var ls := LeafPositions(ns, nodeById, ds, 0);
      leaves := ls;
      var p := Filled(|ds|, |ds|, 0.0);
      var rwc := Filled(|objs|, |objs|, Fin(0.0));
      P := p;
      RWC := rwc;
      B := seq(|ls|, _ => seq(|objs|, _ => 0.0));
      combined := seq(|ds|, _ => seq(|ds|, _ => Fin(0.0)));
    }

    // ----- the transition matrix P -----

    /** The inputs of `__initialisePmatrix` are in order. */
    lemma Ready()
      requires Valid()
      ensures PReady(st, ns, nodeById, descriptors)
    {
    }

    /** Every transition probability is in [0, 1]. */
    lemma PUnit(c: nat, v: nat)
      requires Valid() && c < |descriptors| && v < |descriptors|
      ensures 0.0 <= PSpec(st, ns, nodeById, descriptors, c, v) <= 1.0
    {
      PSpecUnit(st, ns, nodeById, descriptors, c, v);
    }

    /** The descriptors of a valid model are distinct: each is at its own index. */
    lemma DistinctDescriptors()
      requires Valid()
      ensures Distinct(descriptors)
    {
      forall i, j | 0 <= i < j < |descriptors| ensures descriptors[i] != descriptors[j] {
        assert descriptorIndexes[descriptors[i]] == i && descriptorIndexes[descriptors[j]] == j;
      }
    }

    /** What column `v` of P adds up to: `1 - |N_v*| / N_v` for a descriptor with
        descriptor children (no two of them sharing an identifier), 1 for a leaf, and 0 for
        a node none of whose children is a descriptor. */
    lemma PColumns(v: nat)
      requires Valid() && v < |descriptors|
      requires DistinctKidIds(ns, descriptors, KidsOf(ns, nodeById, descriptors, v))
      ensures KidIds(ns, descriptors, KidsOf(ns, nodeById, descriptors, v)) != {} ==>
        ColumnSum(st, ns, nodeById, descriptors, v, |descriptors|)
          == 1.0 - |NvStar(st, ns, descriptors, descriptors[v], KidsOf(ns, nodeById, descriptors, v))| as real
                   / |Get(st.descriptors, descriptors[v])| as real
      ensures KidsOf(ns, nodeById, descriptors, v) == {} ==> ColumnSum(st, ns, nodeById, descriptors, v, |descriptors|) == 1.0
    {
      DistinctDescriptors();
      PColumnMass(st, ns, nodeById, descriptors, v);
    }

    /** `ISM.__initialisePmatrix`. */
    method InitialiseP()
      requires Invariant()
      modifies P
      ensures Invariant()
      ensures forall c, v :: 0 <= c < |descriptors| && 0 <= v < |descriptors| ==>
        P[c, v] == PSpec(st, ns, nodeById, descriptors, c, v)
    {
      PCellsAgree(st, ns, nodeById, descriptors);
      forall j | 0 <= j < |leaves| ensures leaves[j] < |descriptors| && KidsOf(ns, nodeById, descriptors, leaves[j]) == {} {
        assert leaves[j] in leaves;
      }
      FillP(P, PCells(st, ns, nodeById, descriptors), WrittenCells(st, ns, nodeById, descriptors),
            st, ns, nodeById, descriptors, descriptorIndexes, leaves);
      forall c: nat, v: nat | c < |descriptors| && v < |descriptors| && !Written(st, ns, nodeById, descriptors, c, v)
        ensures P[c, v] == 0.0
      {
        if descriptors[c] in KidIds(ns, descriptors, KidsOf(ns, nodeById, descriptors, v)) {
        } else {
          OtherCell(st, ns, nodeById, descriptors, c, v);
        }
      }
    }

    // ----- the whole measure -----

    /** `descriptorIndexes` is the index map of `descriptors`. */
    lemma Indexed()
      requires Valid()
      ensures IndexesOf(descriptors, descriptorIndexes)
    {
    }

    /** `ISM.ism`, with `W` the matrix `__walk` converges to. On success B is `W[leaves]·A`,
        RWC holds the genewise values on and above the diagonal and 0 below it, and the
        combination is `0.5·(RWC + HSM)`, so below the diagonal it is `0.5·HSM` alone. An
        exception of `__computeA` leaves B, RWC and the combination as they were; one of the
        combination leaves the combination as it was. */
    method Ism(W: seq<seq<real>>) returns (r: Result<()>)
      requires Invariant()
      requires |W| == |descriptors| && Rect(W, |descriptors|)
      modifies P, RWC, this`B, this`combined
      ensures Invariant()
      ensures forall c, v :: 0 <= c < |descriptors| && 0 <= v < |descriptors| ==>
        P[c, v] == PSpec(st, ns, nodeById, descriptors, c, v)
      ensures r.Ok? <==> AOk(st, ns, nodeById, descriptorIndexes, objects)
                         && Broadcasts(|HSM|, |objects|) && Broadcasts(Width(HSM), |objects|)
      ensures !AOk(st, ns, nodeById, descriptorIndexes, objects) ==>
        && r.Err?
        && (exists i, d :: 0 <= i < |objects| && d in Get(st.objects, objects[i])
                           && AError(ns, nodeById, descriptorIndexes, d) == Some(r.error))
        && B == old(B) && combined == old(combined)
        && forall i, j :: 0 <= i < |objects| && 0 <= j < |objects| ==> RWC[i, j] == old(RWC[i, j])
      ensures AOk(st, ns, nodeById, descriptorIndexes, objects) ==>
        && B == Product(RowsAt(W, leaves), AMatrix(st, ns, nodeById, descriptors, objects), |objects|)
        && (forall i, j :: 0 <= i <= j < |objects| ==> RWC[i, j] == RwcValue(B, |objects|, i, j))
        && (r.Err? ==> r.error == ValueError && combined == old(combined))
      ensures r.Ok? ==> |combined| == BroadcastLen(|HSM|, |objects|)
                        && forall i :: 0 <= i < |combined| ==> |combined[i]| == BroadcastLen(Width(HSM), |objects|)
      ensures r.Ok? ==> forall i, j :: 0 <= i < BroadcastLen(|HSM|, |objects|) && 0 <= j < BroadcastLen(Width(HSM), |objects|) ==>
        combined[i][j] == HalfSum(GenewiseAt(B, |objects|, i, j), HsmAt(HSM, i, j))
    {
      InitialiseP();
      Indexed();
      var a := ComputeA(st, ns, nodeById, descriptors, descriptorIndexes, objects);
      if a.Err? {
        return Err(a.error);
      }
      r := Combined(W, Contents(a.value));
    }

    /** The part of `ISM.ism` after `__computeA`: B, the genewise RWC and the combination
        with HSM, which fails with a ValueError when HSM does not broadcast. */
    method Combined(W: seq<seq<real>>, am: seq<seq<real>>) returns (r: Result<()>)
      requires Invariant()
      requires |W| == |descriptors| && Rect(W, |descriptors|)
      requires am == AMatrix(st, ns, nodeById, descriptors, objects)
      modifies RWC, this`B, this`combined
      ensures Invariant()
      ensures B == Product(RowsAt(W, leaves), am, |objects|)
      ensures forall i, j :: 0 <= i <= j < |objects| ==> RWC[i, j] == RwcValue(B, |objects|, i, j)
      ensures r.Ok? <==> Broadcasts(|HSM|, |objects|) && Broadcasts(Width(HSM), |objects|)
      ensures r.Err? ==> r.error == ValueError && combined == old(combined)
      ensures r.Ok? ==> |combined| == BroadcastLen(|HSM|, |objects|)
                        && forall i :: 0 <= i < |combined| ==> |combined[i]| == BroadcastLen(Width(HSM), |objects|)
      ensures r.Ok? ==> forall i, j :: 0 <= i < BroadcastLen(|HSM|, |objects|) && 0 <= j < BroadcastLen(Width(HSM), |objects|) ==>
        combined[i][j] == HalfSum(GenewiseAt(B, |objects|, i, j), HsmAt(HSM, i, j))
    {
      B := Product(RowsAt(W, leaves), am, |objects|);
      Genewise(RWC, B, |objects|);
      var c := Combine(FloatContents(RWC), HSM, |objects|);
      if c.Err? {
        return Err(c.error);
      }
      CombineGenewise(FloatContents(RWC), B, HSM, |objects|, c.value);
      combined := c.value;
      return Ok(());
    }
  }

  /** `ISM(thesaurus, annotation, HSM)` with its one exception: `get_node` of an annotated
      descriptor that the thesaurus lacks, when `__init__` looks for the leaves. */
  method NewISM(st: AnnState, ns: seq<Node>, nodeById: map<string, NodeRef>,
                objs: seq<string>, descs: seq<string>, HSM: seq<seq<real>>)
    returns (r: Result<ISM>)
    requires WellFormed(ns) && forall id :: id in nodeById ==> nodeById[id] < |ns|
    requires Distinct(objs) && (set o | o in objs) == st.objects.Keys
    requires Distinct(descs) && (set d | d in descs) == st.descriptors.Keys
    requires Rect(HSM, Width(HSM))
    ensures r.Ok? <==> forall d :: d in Annotated(st, descs) ==> d in nodeById
    ensures r.Err? ==> r.error == KeyError
    ensures r.Ok? ==> && fresh(r.value) && fresh(r.value.P) && fresh(r.value.RWC) && r.value.Invariant()
                      && r.value.objects == objs && r.value.descriptors == Annotated(st, descs)
  {
    var ds := Annotated(st, descs);
    if exists d :: d in ds && d !in nodeById {
      return Err(KeyError);
    }
    var m := new ISM(st, ns, nodeById, objs, descs, HSM);
    return Ok(m);
  }

  /** `children` of `__initialisePmatrix`, in the iteration order of the child set `kids`;
      along it the counts add up to `N_u`. */
  method Children(st: AnnState, ns: seq<Node>, ds: seq<string>, kids: set<NodeRef>) returns (children: seq<string>)
    requires forall h :: h in kids ==> h < |ns|
    ensures Elems(children) == KidIds(ns, ds, kids)
    ensures CountSum(st, children) == Nu(st, ns, ds, kids)
  {
    var kidNodes: seq<NodeRef> := Enumerate<NodeRef>(kids);
    forall k | 0 <= k < |kidNodes| ensures kidNodes[k] < |ns| {
      assert kidNodes[k] in kidNodes;
    }
    children := KidIdentifiers(ns, ds, kidNodes);
    assert Elems(kidNodes) == kids;
    assert Elems(children) == KidIds(ns, ds, kids) by {
      forall x | x in KidIds(ns, ds, kids) ensures x in children {
        var h :| h in kids && ns[h].identifier in ds && ns[h].identifier == x;
        var k :| 0 <= k < |kidNodes| && kidNodes[k] == h;
        assert x in IdsOf(ns, kidNodes);
      }
    }
    ChildrenCount(st, ns, ds, kidNodes);
  }

  /** Along the identifiers of a list of distinct nodes, the counts add up to `N_u`. */
  lemma ChildrenCount(st: AnnState, ns: seq<Node>, ds: seq<string>, hs: seq<NodeRef>)
    requires forall k :: 0 <= k < |hs| ==> hs[k] < |ns|
    requires forall i, j :: 0 <= i < j < |hs| ==> hs[i] != hs[j]
    ensures CountSum(st, KidIdentifiers(ns, ds, hs)) == Nu(st, ns, ds, Elems(hs))
  {
    KidCountSum(st, ns, ds, hs);
    ListSumIsSetSum(hs, Weight(st, ns, ds));
  }

  /** Adding one more descriptor adds its objects to the union. */
  lemma UnionSnoc(st: AnnState, xs: seq<string>, x: string)
    ensures Union(st, Elems(xs + [x])) == Union(st, Elems(xs)) + Get(st.descriptors, x)
  {
    assert Elems(xs + [x]) == Elems(xs) + {x};
  }

  /** A map keyed by a list, updated at one more entry, is keyed by the longer list. */
  lemma KeysSnoc(m: map<string, nat>, xs: seq<string>, y: string, w: nat)
    requires forall x :: x in m <==> x in xs
    ensures forall x :: x in m[y := w] <==> x in xs + [y]
  {
  }

  /** The first loop of `__initialisePmatrix`: along `children`, the total count `N_u`, the
      objects of `base` that no child carries (`N_v*`), and the count of each child (`Nc`). */
  method Tally(st: AnnState, children: seq<string>, base: set<string>)
    returns (nu: nat, nvStar: set<string>, counts: map<string, nat>)
    ensures nu == CountSum(st, children)
    ensures nvStar == base - Union(st, Elems(children))
    ensures forall x :: x in counts <==> x in children
    ensures forall x :: x in counts ==> counts[x] == |Get(st.descriptors, x)|
  {
    nvStar := base;
    counts := map[];
    nu := 0;
    for k := 0 to |children|
      invariant nu == CountSum(st, children[..k])
      invariant nvStar == base - Union(st, Elems(children[..k]))
      invariant forall x :: x in counts <==> x in children[..k]
      invariant forall x :: x in counts ==> counts[x] == |Get(st.descriptors, x)|
    {
      var annotations := Get(st.descriptors, children[k]);
      assert children[..k + 1] == children[..k] + [children[k]];
      CountSumSnoc(st, children[..k], children[k]);
      UnionSnoc(st, children[..k], children[k]);
      KeysSnoc(counts, children[..k], children[k], |annotations|);
      counts := counts[children[k] := |annotations|];
      nu := nu + |annotations|;
      nvStar := nvStar - annotations;
    }
    assert children[..|children|] == children;
  }
}
