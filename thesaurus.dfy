/** The ontology graph. Node objects live in an arena (`seq<Node>`): a `NodeRef` is the
    position of a node object in it, so two node objects with the same identifier stay
    distinct, as Python objects do. Parents and children are sets of references. */
module Thesaurus {
  import opened Wrappers
  import opened Strings

  type NodeRef = nat

  /** A MeSH thesaurus node: `ThesaurusNode` fields plus the MeSH positions, the trees and
      categories derived from them, and the dummy flag. */
  datatype Node = Node(
    name: string,
    identifier: string,
    synonyms: seq<string>,
    positions: seq<string>,
    trees: set<string>,
    categories: set<string>,
    dummy: bool,
    parents: set<NodeRef>,
    children: set<NodeRef>)

  // ----- reachability over an edge table (index -> successors) -----

  /** Every successor named in the table is an index of the table. */
  ghost predicate Closed(edges: seq<set<nat>>) {
    forall v, w :: 0 <= v < |edges| && w in edges[v] ==> w < |edges|
  }

  /** `p` is a walk that follows the edges, one step at a time. */
  ghost predicate IsPath(edges: seq<set<nat>>, p: seq<nat>) {
    && |p| > 0
    && (forall i :: 0 <= i < |p| ==> p[i] < |edges|)
    && (forall i :: 0 <= i < |p| - 1 ==> p[i + 1] in edges[p[i]])
  }

  /** Some walk leads from `start` to `v`. */
  ghost predicate Walk(edges: seq<set<nat>>, start: nat, v: nat) {
    exists p :: IsPath(edges, p) && p[0] == start && p[|p| - 1] == v
  }

  /** The nodes a walk from `start` can reach, `start` itself included. */
  ghost function Reach(edges: seq<set<nat>>, start: nat): set<nat> {
    set v | 0 <= v < |edges| && Walk(edges, start, v)
  }

  lemma ReachStart(edges: seq<set<nat>>, start: nat)
    requires start < |edges|
    ensures start in Reach(edges, start)
  {
    assert IsPath(edges, [start]);
  }

  lemma ReachStep(edges: seq<set<nat>>, start: nat, v: nat, w: nat)
    requires v in Reach(edges, start) && w in edges[v] && w < |edges|
    ensures w in Reach(edges, start)
  {
    var p :| IsPath(edges, p) && p[0] == start && p[|p| - 1] == v;
    var q := p + [w];
    assert forall i :: 0 <= i < |p| ==> q[i] == p[i];
    assert IsPath(edges, q);
    assert q[0] == start && q[|q| - 1] == w;
  }

  /** A walk that starts in a set closed under the edges never leaves it. */
  lemma {:induction false} PathStaysIn(edges: seq<set<nat>>, p: seq<nat>, s: set<nat>)
    requires IsPath(edges, p) && p[0] in s
    requires forall v, w :: v in s && v < |edges| && w in edges[v] ==> w in s
    ensures p[|p| - 1] in s
    decreases |p|
  {
    if |p| > 1 {
      var q := p[..|p| - 1];
      assert IsPath(edges, q);
      PathStaysIn(edges, q, s);
      assert p[|p| - 1] in edges[q[|q| - 1]];
    }
  }

  /** The elements of a set, in some order (Python's iteration order over a set). */
  method Enumerate<T>(s: set<T>) returns (xs: seq<T>)
    ensures forall x :: x in xs <==> x in s
    ensures |xs| == |s|
    ensures forall i, j :: 0 <= i < j < |xs| ==> xs[i] != xs[j]
  {
    xs := [];
    var rest := s;
    while rest != {}
      invariant rest <= s
      invariant forall x :: x in xs <==> x in s - rest
      invariant |xs| + |rest| == |s|
      invariant forall i, j :: 0 <= i < j < |xs| ==> xs[i] != xs[j]
      decreases rest
    {
      var x :| x in rest;
      assert x !in xs;
      xs := xs + [x];
      rest := rest - {x};
    }
  }

  /** The breadth-first walk of `get_ancestors` / `get_descendants`: a queue seeded with the
      start node and a visited set, so a node reached twice, or through a cycle, is taken once. */
  method Closure(edges: seq<set<nat>>, start: nat) returns (visited: set<nat>)
    requires Closed(edges)
    requires start < |edges|
    ensures start in visited
    ensures forall v :: v in visited ==> v < |edges|
    ensures forall v, w :: v in visited && w in edges[v] ==> w in visited
    ensures visited == Reach(edges, start)
  {
    ghost var reach := Reach(edges, start);
    ReachStart(edges, start);
    forall v, w | v in reach && v < |edges| && w in edges[v]
      ensures w in reach
    {
      ReachStep(edges, start, v, w);
    }
    visited := Explore(edges, start, reach);
    forall v | v in reach
      ensures v in visited
    {
      var p :| IsPath(edges, p) && p[0] == start && p[|p| - 1] == v;
      PathStaysIn(edges, p, visited);
    }
  }

  /** The queue loop of the walk, inside any set `reach` that holds the start and is closed
      under the edges: it visits the start, stays inside `reach` and ends closed. */
  method Explore(edges: seq<set<nat>>, start: nat, ghost reach: set<nat>) returns (visited: set<nat>)
    requires start in reach && forall v :: v in reach ==> v < |edges|
    requires forall v, w :: v in reach && v < |edges| && w in edges[v] ==> w in reach
    ensures start in visited && visited <= reach
    ensures forall v, w :: v in visited && v < |edges| && w in edges[v] ==> w in visited
  {
    var queue := [start];
    visited := {};
    while |queue| > 0
      invariant forall x :: x in queue ==> x in reach
      invariant visited <= reach
      invariant start in visited || start in queue
      invariant forall v, w :: v in visited && v < |edges| && w in edges[v] ==> w in visited || w in queue
      decreases |reach - visited|, |queue|
    {
      var elem := queue[0];
      ghost var before := queue;
      queue := queue[1..];
      assert forall x :: x in before ==> x == elem || x in queue;
      if elem !in visited {
        assert reach - (visited + {elem}) < reach - visited;
        visited := visited + {elem};
        var next := Enumerate(edges[elem]);
        queue := queue + next;
        assert forall x :: x in before ==> x in visited || x in queue;
      }
    }
  }

  // ----- the graph as it is stored in the arena -----

  function ParentEdges(ns: seq<Node>): (e: seq<set<nat>>)
    ensures |e| == |ns| && forall i :: 0 <= i < |ns| ==> e[i] == ns[i].parents
  {
    seq(|ns|, i requires 0 <= i < |ns| => ns[i].parents)
  }

  function ChildEdges(ns: seq<Node>): (e: seq<set<nat>>)
    ensures |e| == |ns| && forall i :: 0 <= i < |ns| ==> e[i] == ns[i].children
  {
    seq(|ns|, i requires 0 <= i < |ns| => ns[i].children)
  }

  /** Every parent and child reference names a node of the arena. */
  ghost predicate WellFormed(ns: seq<Node>) {
    forall h, q :: 0 <= h < |ns| && (q in ns[h].parents || q in ns[h].children) ==> q < |ns|
  }

  ghost function Ancestors(ns: seq<Node>, h: NodeRef): set<NodeRef> {
    Reach(ParentEdges(ns), h)
  }

  ghost function Descendants(ns: seq<Node>, h: NodeRef): set<NodeRef> {
    Reach(ChildEdges(ns), h)
  }

  /** `ThesaurusNode.get_ancestors`. */
  method GetAncestors(ns: seq<Node>, h: NodeRef) returns (r: set<NodeRef>)
    requires WellFormed(ns) && h < |ns|
    ensures h in r
    ensures forall v :: v in r ==> v < |ns|
    ensures forall v, w :: v in r && w in ns[v].parents ==> w in r
    ensures r == Ancestors(ns, h)
  {
    r := Closure(ParentEdges(ns), h);
  }

  /** `ThesaurusNode.get_descendants`. */
  method GetDescendants(ns: seq<Node>, h: NodeRef) returns (r: set<NodeRef>)
    requires WellFormed(ns) && h < |ns|
    ensures h in r
    ensures forall v :: v in r ==> v < |ns|
    ensures forall v, w :: v in r && w in ns[v].children ==> w in r
    ensures r == Descendants(ns, h)
  {
    r := Closure(ChildEdges(ns), h);
  }

  // ----- trees and categories of a node -----

  /** The tree of a position: its first dotted segment, `position.split('.')[0]`
      (`Split` states that this is its first piece). */
  function TreeOf(position: string): string {
    Before(position, '.')
  }

  /** The trees of a list of positions. */
  function TreesOf(positions: seq<string>): (r: set<string>)
    ensures (forall i :: 0 <= i < |positions| ==> |TreeOf(positions[i])| > 0) ==> forall t :: t in r ==> |t| > 0
  {
    if |positions| == 0 then {}
    else TreesOf(positions[..|positions| - 1]) + {TreeOf(positions[|positions| - 1])}
  }

  /** A tree of a node is the tree of one of its positions, and every position's tree is one. */
  lemma {:induction false} TreesOfMembers(positions: seq<string>, t: string)
    ensures t in TreesOf(positions) <==> exists i :: 0 <= i < |positions| && TreeOf(positions[i]) == t
  {
    if |positions| > 0 {
      var init := positions[..|positions| - 1];
      TreesOfMembers(init, t);
      if t in TreesOf(init) {
        var i :| 0 <= i < |init| && TreeOf(init[i]) == t;
        assert positions[i] == init[i];
      }
      if exists i :: 0 <= i < |positions| && TreeOf(positions[i]) == t {
        var i :| 0 <= i < |positions| && TreeOf(positions[i]) == t;
        if i < |init| {
          assert positions[i] == init[i];
        }
      }
    }
  }

  /** The categories of a set of non-empty trees: their first characters. */
  function CategoriesOf(trees: set<string>): set<string>
    requires forall t :: t in trees ==> |t| > 0
  {
    set t | t in trees :: [t[0]]
  }

  lemma CategoriesOfAdd(trees: set<string>, t: string)
    requires forall u :: u in trees ==> |u| > 0
    requires |t| > 0
    ensures CategoriesOf(trees + {t}) == CategoriesOf(trees) + {[t[0]]}
  {
  }

  /** `MeSHThesaurusNode.__extract_trees_and_categories`; `tree[0]` raises IndexError on a
      position whose first segment is empty. */
  method ExtractTreesAndCategories(positions: seq<string>) returns (r: Result<(set<string>, set<string>)>)
    ensures r.Ok? <==> forall i :: 0 <= i < |positions| ==> |TreeOf(positions[i])| > 0
    ensures r.Err? ==> r.error == IndexError
    ensures r.Ok? ==> r.value.0 == TreesOf(positions) && r.value.1 == CategoriesOf(r.value.0)
  {
    var trees: set<string> := {};
    var categories: set<string> := {};
    for k := 0 to |positions|
      invariant trees == TreesOf(positions[..k])
      invariant forall i :: 0 <= i < k ==> |TreeOf(positions[i])| > 0
      invariant forall t :: t in trees ==> |t| > 0
      invariant categories == CategoriesOf(trees)
    {
      var tree := TreeOf(positions[k]);
      if |tree| == 0 {
        return Err(IndexError);
      }
      assert positions[..k + 1][..k] == positions[..k];
      CategoriesOfAdd(trees, tree);
      trees := trees + {tree};
      categories := categories + {[tree[0]]};
    }
    assert positions[..|positions|] == positions;
    r := Ok((trees, categories));
  }

  lemma {:induction false} TreesOfAtMostPositions(positions: seq<string>)
    ensures |TreesOf(positions)| <= |positions|
  {
    if |positions| > 0 {
      var init := positions[..|positions| - 1];
      TreesOfAtMostPositions(init);
    }
  }

  lemma {:induction false} CategoriesOfAtMostTrees(trees: set<string>)
    requires forall t :: t in trees ==> |t| > 0
    ensures |CategoriesOf(trees)| <= |trees|
    decreases trees
  {
    if trees != {} {
      var t :| t in trees;
      CategoriesOfAtMostTrees(trees - {t});
      assert CategoriesOf(trees) == CategoriesOf(trees - {t}) + {[t[0]]};
    } else {
      assert CategoriesOf(trees) == {};
    }
  }

  /** A node has no more categories than trees and no more trees than positions. */
  lemma CategoriesAtMostTreesAtMostPositions(positions: seq<string>)
    requires forall i :: 0 <= i < |positions| ==> |TreeOf(positions[i])| > 0
    ensures |CategoriesOf(TreesOf(positions))| <= |TreesOf(positions)| <= |positions|
  {
    TreesOfAtMostPositions(positions);
    CategoriesOfAtMostTrees(TreesOf(positions));
  }

  // ----- the thesaurus object -----

  /** The node object `MeSHThesaurusNode(name, identifier, positions)` starts as: no
      synonyms, parents or children, not dummy, trees and categories read off its positions. */
  function Created(name: string, identifier: string, positions: seq<string>): Node
    requires forall i :: 0 <= i < |positions| ==> |TreeOf(positions[i])| > 0
  {
    Node(name, identifier, [], positions, TreesOf(positions), CategoriesOf(TreesOf(positions)), false, {}, {})
  }

  /** `MeSHThesaurus` (with the `Thesaurus` base): the node arena and the lookup tables. */
  /** The position table once each of `ps`, in order, is set to `h`. */
  function Registered(m: map<string, NodeRef>, ps: seq<string>, h: NodeRef): map<string, NodeRef> {
    if |ps| == 0 then m else Registered(m, ps[..|ps| - 1], h)[ps[|ps| - 1] := h]
  }

  /** A key is registered exactly when it was already or is one of `ps`; those map to `h`, the
      others keep their value. */
  lemma {:induction false} RegisteredMembers(m: map<string, NodeRef>, ps: seq<string>, h: NodeRef, p: string)
    ensures p in Registered(m, ps, h) <==> p in m || p in ps
    ensures p in ps ==> Registered(m, ps, h)[p] == h
    ensures p in m && p !in ps ==> Registered(m, ps, h)[p] == m[p]
  {
    if |ps| > 0 {
      var init := ps[..|ps| - 1];
      RegisteredMembers(m, init, h, p);
      assert p in ps <==> p in init || p == ps[|ps| - 1];
    }
  }

  lemma RegisteredOne(m: map<string, NodeRef>, p: string, h: NodeRef)
    ensures Registered(m, [p], h) == m[p := h]
  {
    assert [p][..0] == [];
  }

  class MeSHThesaurus {
    var nodes: seq<Node>
    var nodeById: map<string, NodeRef>
    var categories: map<string, string>
    var trees: map<string, string>
    var treesByCategory: map<string, set<string>>
    var categoryByTree: map<string, string>
    var nodeByPosition: map<string, NodeRef>
    var nodesByCategory: map<string, set<string>>

    ghost predicate Valid()
      reads this
    {
      && WellFormed(nodes)
      && (forall id :: id in nodeById ==> nodeById[id] < |nodes|)
      && (forall p :: p in nodeByPosition ==> nodeByPosition[p] < |nodes|)
    }

    constructor ()
      ensures Valid()
      ensures nodes == [] && nodeById == map[] && categories == map[] && trees == map[]
      ensures treesByCategory == map[] && categoryByTree == map[]
      ensures nodeByPosition == map[] && nodesByCategory == map[]
    {
      nodes := [];
      nodeById := map[];
      categories := map[];
      trees := map[];
      treesByCategory := map[];
      categoryByTree := map[];
      nodeByPosition := map[];
      nodesByCategory := map[];
    }

    /** `MeSHThesaurusNode(name, identifier, positions)`: a fresh node object, with no
        synonyms, parents or children, not dummy. */
    method NewNode(name: string, identifier: string, positions: seq<string>) returns (r: Result<NodeRef>)
      requires Valid()
      modifies this`nodes
      ensures Valid()
      ensures r.Ok? <==> forall i :: 0 <= i < |positions| ==> |TreeOf(positions[i])| > 0
      ensures r.Err? ==> r.error == IndexError && nodes == old(nodes)
      ensures r.Ok? ==> r.value == |old(nodes)| && nodes == old(nodes) + [Created(name, identifier, positions)]
    {
      var tc := ExtractTreesAndCategories(positions);
      if tc.Err? {
        return Err(tc.error);
      }
      r := Ok(|nodes|);
      nodes := nodes + [Node(name, identifier, [], positions, tc.value.0, tc.value.1, false, {}, {})];
    }

    method SetDummy(h: NodeRef, dummy: bool)
      requires Valid() && h < |nodes|
      modifies this`nodes
      ensures Valid()
      ensures nodes == old(nodes)[h := old(nodes)[h].(dummy := dummy)]
    {
      nodes := nodes[h := nodes[h].(dummy := dummy)];
    }

    method SetSynonyms(h: NodeRef, synonyms: seq<string>)
      requires Valid() && h < |nodes|
      modifies this`nodes
      ensures Valid()
      ensures nodes == old(nodes)[h := old(nodes)[h].(synonyms := synonyms)]
    {
      nodes := nodes[h := nodes[h].(synonyms := synonyms)];
    }

    method AddParent(h: NodeRef, parent: NodeRef)
      requires Valid() && h < |nodes| && parent < |nodes|
      modifies this`nodes
      ensures Valid()
      ensures nodes == old(nodes)[h := old(nodes)[h].(parents := old(nodes)[h].parents + {parent})]
    {
      nodes := nodes[h := nodes[h].(parents := nodes[h].parents + {parent})];
    }

    method AddChild(h: NodeRef, child: NodeRef)
      requires Valid() && h < |nodes| && child < |nodes|
      modifies this`nodes
      ensures Valid()
      ensures nodes == old(nodes)[h := old(nodes)[h].(children := old(nodes)[h].children + {child})]
    {
      nodes := nodes[h := nodes[h].(children := nodes[h].children + {child})];
    }

    /** `MeSHThesaurus.add_node`: registers the node under its identifier (a repeated
        identifier is overwritten) and under each of its positions (overriding earlier owners). */
    method AddNode(h: NodeRef)
      requires Valid() && h < |nodes|
      modifies this`nodeById, this`nodeByPosition
      ensures Valid()
      ensures nodeById == old(nodeById)[nodes[h].identifier := h]
      ensures nodeByPosition == Registered(old(nodeByPosition), nodes[h].positions, h)
    {
      nodeById := nodeById[nodes[h].identifier := h];
      var positions := nodes[h].positions;
      for k := 0 to |positions|
        invariant Valid()
        invariant nodeById == old(nodeById)[nodes[h].identifier := h]
        invariant nodeByPosition == Registered(old(nodeByPosition), positions[..k], h)
      {
        assert positions[..k + 1][..k] == positions[..k];
        nodeByPosition := nodeByPosition[positions[k] := h];
      }
      assert positions[..|positions|] == positions;
    }

    /** `Thesaurus.get_node`: KeyError on an unknown identifier. */
    function GetNode(identifier: string): (r: Result<NodeRef>)
      reads this
      ensures r.Ok? <==> identifier in nodeById
      ensures r.Ok? ==> r.value == nodeById[identifier]
      ensures r.Err? ==> r.error == KeyError
    {
      if identifier in nodeById then Ok(nodeById[identifier]) else Err(KeyError)
    }

    /** `MeSHThesaurus.get_node_by_position`: KeyError on an unknown position. */
    function GetNodeByPosition(position: string): (r: Result<NodeRef>)
      reads this
      ensures r.Ok? <==> position in nodeByPosition
      ensures r.Ok? ==> r.value == nodeByPosition[position]
      ensures r.Err? ==> r.error == KeyError
    {
      if position in nodeByPosition then Ok(nodeByPosition[position]) else Err(KeyError)
    }

    method AddCategory(categoryId: string, categoryName: string)
      modifies this`categories
      ensures categories == old(categories)[categoryId := categoryName]
    {
      categories := categories[categoryId := categoryName];
    }

    /** `MeSHThesaurus.add_tree`: records the tree, then files it under the first character
        of its first dotted segment; that character lookup raises IndexError, after the
        tree itself is recorded, when the segment is empty. */
    method AddTree(treeId: string, treeName: string) returns (r: Result<()>)
      modifies this`trees, this`treesByCategory, this`categoryByTree
      ensures trees == old(trees)[treeId := treeName]
      ensures r.Ok? <==> |TreeOf(treeId)| > 0
      ensures r.Err? ==>
        && r.error == IndexError
        && treesByCategory == old(treesByCategory) && categoryByTree == old(categoryByTree)
      ensures r.Ok? ==>
        var c := [TreeOf(treeId)[0]];
        && categoryByTree == old(categoryByTree)[treeId := c]
        && treesByCategory == old(treesByCategory)[c := (if c in old(treesByCategory) then old(treesByCategory)[c] else {}) + {treeId}]
    {
      trees := trees[treeId := treeName];
      var first := TreeOf(treeId);
      if |first| == 0 {
        return Err(IndexError);
      }
      var c := [first[0]];
      var filed := if c in treesByCategory then treesByCategory[c] else {};
      treesByCategory := treesByCategory[c := filed + {treeId}];
      categoryByTree := categoryByTree[treeId := c];
      r := Ok(());
    }

    /** `MeSHThesaurus.get_nodes_by_category`: a defaultdict lookup, so an unseen category
        gets an empty entry. */
    method GetNodesByCategory(categoryId: string) returns (r: set<string>)
      modifies this`nodesByCategory
      ensures r == if categoryId in old(nodesByCategory) then old(nodesByCategory)[categoryId] else {}
      ensures nodesByCategory == old(nodesByCategory)[categoryId := r]
    {
      r := if categoryId in nodesByCategory then nodesByCategory[categoryId] else {};
      nodesByCategory := nodesByCategory[categoryId := r];
    }

    /** `Thesaurus.common_ancestors`: the intersection of the two ancestor sets; KeyError
        when either identifier is unknown. */
    method CommonAncestors(id1: string, id2: string) returns (r: Result<set<NodeRef>>)
      requires Valid()
      ensures r.Ok? <==> id1 in nodeById && id2 in nodeById
      ensures r.Err? ==> r.error == KeyError
      ensures r.Ok? ==> r.value == Ancestors(nodes, nodeById[id1]) * Ancestors(nodes, nodeById[id2])
    {
      if id1 !in nodeById || id2 !in nodeById {
        return Err(KeyError);
      }
      var a1 := GetAncestors(nodes, nodeById[id1]);
      var a2 := GetAncestors(nodes, nodeById[id2]);
      r := Ok(a1 * a2);
    }
  }

  /** Common ancestors do not depend on the order of the two nodes, and a node's common
      ancestors with itself are its ancestors. */
  lemma CommonAncestorsSymmetric(ns: seq<Node>, h1: NodeRef, h2: NodeRef)
    requires WellFormed(ns) && h1 < |ns| && h2 < |ns|
    ensures Ancestors(ns, h1) * Ancestors(ns, h2) == Ancestors(ns, h2) * Ancestors(ns, h1)
    ensures Ancestors(ns, h1) * Ancestors(ns, h1) == Ancestors(ns, h1)
    ensures h1 in Ancestors(ns, h1) * Ancestors(ns, h1)
  {
    ReachStart(ParentEdges(ns), h1);
  }
}
