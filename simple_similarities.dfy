/** `simple_similarities.py`: set-overlap similarities between diseases (Jaccard, Dice,
    overlap, number in common) over the MeSH descriptors or PubMed ids they map to, after
    keeping only the descriptors in chosen MeSH categories. Output lines are modelled as
    `(d1, d2, similarity)` triples; their `%f` text is not modelled. */
module SimpleSimilarities {
  import opened Wrappers
  import opened Strings
  import opened Combinations
  import Measures
  import Thesaurus

  // ----- the four measures -----

  /** `jaccard`: `|A ∩ B| / |A ∪ B|`, and 0 where the division fails. */
  function Jaccard(a: set<string>, b: set<string>): (r: real)
    ensures 0.0 <= r <= 1.0
    ensures r > 0.0 <==> a * b != {}
    ensures a + b == {} ==> r == 0.0
    ensures a + b != {} ==> (r == 1.0 <==> a == b)
    ensures a + b != {} ==> r * (|a + b| as real) == |a * b| as real
  {
    if a + b == {} then 0.0
    else
      Measures.JaccardCards(a, b);
      Measures.Ratio(|a * b|, |a + b|);
      assert a == b ==> a * b == a + b;
      (|a * b| as real) / (|a + b| as real)
  }

  /** `dice`: `2|A ∩ B| / (|A| + |B|)`, and 0 where the division fails. */
  function Dice(a: set<string>, b: set<string>): (r: real)
    ensures 0.0 <= r <= 1.0
    ensures r > 0.0 <==> a * b != {}
    ensures |a| + |b| == 0 ==> r == 0.0
    ensures |a| + |b| > 0 ==> (r == 1.0 <==> a == b)
    ensures |a| + |b| > 0 ==> r * ((|a| + |b|) as real) == (2 * |a * b|) as real
  {
    if |a| + |b| == 0 then 0.0
    else
      DiceCards(a, b);
      Measures.Ratio(2 * |a * b|, |a| + |b|);
      (2 * |a * b|) as real / ((|a| + |b|) as real)
  }

  /** Twice the intersection is at most the two sizes together, with equality exactly
      when the sets agree. */
  lemma DiceCards(a: set<string>, b: set<string>)
    ensures 2 * |a * b| <= |a| + |b|
    ensures 2 * |a * b| == |a| + |b| <==> a == b
  {
    Measures.SubsetCard(a * b, a);
    Measures.SubsetCard(a * b, b);
    if a != b {
      if a * b != a {
        Measures.StrictSubsetCard(a * b, a);
      } else {
        assert a * b != b;
        Measures.StrictSubsetCard(a * b, b);
      }
    } else {
      assert a * b == a;
    }
  }

  /** `overlap`: `|A ∩ B| / min(|A|, |B|)`, and 0 where the division fails. */
  function Overlap(a: set<string>, b: set<string>): (r: real)
    ensures 0.0 <= r <= 1.0
    ensures r > 0.0 <==> a * b != {}
    ensures a == {} || b == {} ==> r == 0.0
    ensures a != {} && b != {} ==> (r == 1.0 <==> a <= b || b <= a)
  {
    var lo := if |a| <= |b| then |a| else |b|;
    if lo == 0 then 0.0
    else
      OverlapCards(a, b);
      Measures.Ratio(|a * b|, lo);
      (|a * b| as real) / (lo as real)
  }

  /** The intersection is at most the smaller set, and as large exactly when one set
      contains the other. */
  lemma OverlapCards(a: set<string>, b: set<string>)
    ensures |a * b| <= |a| && |a * b| <= |b|
    ensures |a * b| == (if |a| <= |b| then |a| else |b|) <==> a <= b || b <= a
  {
    Measures.SubsetCard(a * b, a);
    Measures.SubsetCard(a * b, b);
    if a * b != a {
      Measures.StrictSubsetCard(a * b, a);
    }
    if a * b != b {
      Measures.StrictSubsetCard(a * b, b);
    }
    assert a <= b ==> a * b == a;
    assert b <= a ==> a * b == b;
    if a <= b && |b| < |a| {
      Measures.SubsetCard(a, b);
    }
    if b <= a && |a| < |b| {
      Measures.SubsetCard(b, a);
    }
  }

  /** `num_common`: `|A ∩ B|`. */
  function NumCommon(a: set<string>, b: set<string>): (r: real)
    ensures r == |a * b| as real
    ensures r > 0.0 <==> a * b != {}
    ensures r <= |a| as real && r <= |b| as real
  {
    Measures.SubsetCard(a * b, a);
    Measures.SubsetCard(a * b, b);
    |a * b| as real
  }

  /** The keys of the `options` and `names` dicts. */
  datatype Measure = JaccardIndex | DiceIndex | OverlapIndex | Common

  /** `options[key]`: a key outside 0..3 is a KeyError. */
  function MeasureOf(key: int): (r: Result<Measure>)
    ensures r.Ok? <==> 0 <= key < 4
    ensures r.Err? ==> r.error == KeyError
    ensures r.Ok? ==> Name(r.value) == ["jaccard", "dice", "overlap", "num_common"][key]
  {
    if key == 0 then Ok(JaccardIndex)
    else if key == 1 then Ok(DiceIndex)
    else if key == 2 then Ok(OverlapIndex)
    else if key == 3 then Ok(Common)
    else Err(KeyError)
  }

  /** `names[key]`, which ends the output file's name. */
  function Name(m: Measure): string {
    match m
    case JaccardIndex => "jaccard"
    case DiceIndex => "dice"
    case OverlapIndex => "overlap"
    case Common => "num_common"
  }

  /** `options[key](s1, s2)`. Every measure is positive exactly when the sets share an
      element; all but `num_common` lie in [0, 1]. */
  function Similarity(m: Measure, a: set<string>, b: set<string>): (r: real)
    ensures r >= 0.0
    ensures r > 0.0 <==> a * b != {}
    ensures m != Common ==> r <= 1.0
  {
    match m
    case JaccardIndex => Jaccard(a, b)
    case DiceIndex => Dice(a, b)
    case OverlapIndex => Overlap(a, b)
    case Common => NumCommon(a, b)
  }

  /** All four measures are symmetric. */
  lemma SimilaritySymmetric(m: Measure, a: set<string>, b: set<string>)
    ensures Similarity(m, a, b) == Similarity(m, b, a)
  {
    assert a * b == b * a && a + b == b + a;
  }

  // ----- filterAnnotation -----

  /** `set(desired_trees) & set(tree_positions[desc])` is non-empty: the descriptor lies
      in a wanted category. A descriptor without positions lies in none. */
  predicate InCategories(desc: string, desired: set<char>, treePositions: map<string, set<char>>) {
    desc in treePositions && desired * treePositions[desc] != {}
  }

  /** The descriptors of one object that the filter keeps, in their order. */
  function Kept(descs: seq<string>, desired: set<char>, treePositions: map<string, set<char>>): (r: seq<string>)
    ensures |r| <= |descs|
  {
    if |descs| == 0 then []
    else
      var d := descs[|descs| - 1];
      Kept(descs[..|descs| - 1], desired, treePositions) + (if InCategories(d, desired, treePositions) then [d] else [])
  }

  /** The filter keeps exactly the descriptors in a wanted category. */
  lemma {:induction false} KeptMembers(descs: seq<string>, desired: set<char>, treePositions: map<string, set<char>>, d: string)
    ensures d in Kept(descs, desired, treePositions) <==> d in descs && InCategories(d, desired, treePositions)
  {
    if |descs| > 0 {
      var init := descs[..|descs| - 1];
      KeptMembers(init, desired, treePositions, d);
      assert descs == init + [descs[|descs| - 1]];
    }
  }

  /** It works piece by piece, so it keeps the order of the descriptors. */
  lemma {:induction false} KeptAppend(a: seq<string>, b: seq<string>, desired: set<char>, treePositions: map<string, set<char>>)
    ensures Kept(a + b, desired, treePositions) == Kept(a, desired, treePositions) + Kept(b, desired, treePositions)
  {
    if |b| > 0 {
      var init := b[..|b| - 1];
      KeptAppend(a, init, desired, treePositions);
      assert (a + b)[..|a + b| - 1] == a + init;
    } else {
      assert a + b == a;
    }
  }

  /** It keeps every copy of a kept descriptor and drops every copy of the others. */
  lemma {:induction false} KeptCount(descs: seq<string>, desired: set<char>, treePositions: map<string, set<char>>, d: string)
    ensures multiset(Kept(descs, desired, treePositions))[d] == if InCategories(d, desired, treePositions) then multiset(descs)[d] else 0
  {
    if |descs| > 0 {
      var init := descs[..|descs| - 1];
      KeptCount(init, desired, treePositions, d);
      assert descs == init + [descs[|descs| - 1]];
    }
  }

  /** `filtered_mapping`: an object is present exactly when it keeps at least one
      descriptor, mapped to the descriptors it keeps. */
  function Filtered(mapping: map<string, seq<string>>, desired: set<char>, treePositions: map<string, set<char>>): map<string, seq<string>> {
    map v | v in mapping && Kept(mapping[v], desired, treePositions) != [] :: Kept(mapping[v], desired, treePositions)
  }

  /** `filtered_mapping[v]` holds `d` exactly when `mapping[v]` does and `d` lies in a
      wanted category. */
  lemma FilteredMembers(mapping: map<string, seq<string>>, desired: set<char>, treePositions: map<string, set<char>>, v: string, d: string)
    ensures v in Filtered(mapping, desired, treePositions) && d in Filtered(mapping, desired, treePositions)[v]
      <==> v in mapping && d in mapping[v] && InCategories(d, desired, treePositions)
  {
    if v in mapping {
      KeptMembers(mapping[v], desired, treePositions, d);
    }
  }

  /** The objects of `mapping` among `done`: the part of the loop already run. */
  function Restrict(mapping: map<string, seq<string>>, done: set<string>): map<string, seq<string>> {
    map v | v in mapping && v in done :: mapping[v]
  }

  /** `filterAnnotation`: the loop over every object and its descriptors, appending the
      ones in a wanted category. */
  method FilterAnnotation(mapping: map<string, seq<string>>, desired: set<char>, treePositions: map<string, set<char>>)
    returns (filtered: map<string, seq<string>>)
    ensures filtered == Filtered(mapping, desired, treePositions)
  {
    var objects := Thesaurus.Enumerate(mapping.Keys);
    filtered := map[];
    ghost var done: set<string> := {};
    for i := 0 to |objects|
      invariant done == Elems(objects[..i])
      invariant filtered == Filtered(Restrict(mapping, done), desired, treePositions)
    {
      var v := objects[i];
      ElemsStep(objects, i);
      filtered := FilterObject(filtered, v, mapping[v], desired, treePositions);
      done := done + {v};
      FilteredStep(mapping, done - {v}, v, desired, treePositions);
    }
    assert objects[..|objects|] == objects;
    assert Restrict(mapping, done) == mapping;
  }

  /** The inner loop of `filterAnnotation` for object `v`: its kept descriptors appended
      one at a time to `filtered_mapping[v]`, which exists only once one is kept. */
  method FilterObject(filtered: map<string, seq<string>>, v: string, descs: seq<string>, desired: set<char>,
                      treePositions: map<string, set<char>>)
    returns (out: map<string, seq<string>>)
    requires v !in filtered
    ensures out == if Kept(descs, desired, treePositions) == [] then filtered else filtered[v := Kept(descs, desired, treePositions)]
  {
    out := filtered;
    for k := 0 to |descs|
      invariant out == if Kept(descs[..k], desired, treePositions) == [] then filtered
        else filtered[v := Kept(descs[..k], desired, treePositions)]
    {
      assert descs[..k + 1][..k] == descs[..k] && descs[..k + 1][k] == descs[k];
      var positions := if descs[k] in treePositions then treePositions[descs[k]] else {};
      assert InCategories(descs[k], desired, treePositions) <==> desired * positions != {};
      if desired * positions != {} {
        out := out[v := GetList(out, v) + [descs[k]]];
        assert out == filtered[v := Kept(descs[..k + 1], desired, treePositions)];
      } else {
        assert Kept(descs[..k + 1], desired, treePositions) == Kept(descs[..k], desired, treePositions);
      }
    }
    assert descs[..|descs|] == descs;
  }

  /** Running the loop body for one more object. */
  lemma FilteredStep(mapping: map<string, seq<string>>, done: set<string>, v: string, desired: set<char>, treePositions: map<string, set<char>>)
    requires v in mapping && v !in done
    ensures var before := Filtered(Restrict(mapping, done), desired, treePositions);
      var kept := Kept(mapping[v], desired, treePositions);
      Filtered(Restrict(mapping, done + {v}), desired, treePositions) == if kept == [] then before else before[v := kept]
  {
  }

  // ----- readTreePositions -----

  /** `i.strip().split('.')[0][0]` for a whitespace-free token: its first letter, or an
      IndexError when it starts with '.' (see `FirstSegmentLetter`). */
  function CategoryOf(pos: string): (r: Result<char>)
    requires |pos| > 0
  {
    if pos[0] == '.' then Err(IndexError) else Ok(pos[0])
  }

  /** The first dotted segment of a position is empty exactly when the position starts
      with '.', and otherwise starts with the position's first letter. */
  lemma FirstSegmentLetter(pos: string)
    requires |pos| > 0 && NoSpace(pos)
    ensures var first := Split(Strip(pos), '.')[0];
      && (|first| == 0 <==> pos[0] == '.')
      && (|first| > 0 ==> first[0] == pos[0])
      && CategoryOf(pos) == if |first| == 0 then Err(IndexError) else Ok(first[0])
  {
  }

  /** The set comprehension of `readTreePositions` over the positions of one line: the
      category letters, or the IndexError of the first position starting with '.'. */
  function Categories(positions: seq<string>): (r: Result<set<char>>)
    requires forall k :: 0 <= k < |positions| ==> |positions[k]| > 0 && NoSpace(positions[k])
    ensures r.Err? ==> r.error == IndexError
  {
    if |positions| == 0 then Ok({})
    else
      var init := positions[..|positions| - 1];
      var last := positions[|positions| - 1];
      var cs := Categories(init);
      if cs.Err? then
        Err(cs.error)
      else
        var c := CategoryOf(last);
        if c.Err? then Err(c.error) else Ok(cs.value + {c.value})
  }

  /** The comprehension fails exactly when some position starts with '.', and otherwise
      holds the first letter of every position. */
  lemma {:induction false} CategoriesMembers(positions: seq<string>, c: char)
    requires forall k :: 0 <= k < |positions| ==> |positions[k]| > 0 && NoSpace(positions[k])
    ensures Categories(positions).Ok? <==> forall k :: 0 <= k < |positions| ==> positions[k][0] != '.'
    ensures Categories(positions).Ok? ==> (c in Categories(positions).value <==> exists k :: 0 <= k < |positions| && positions[k][0] == c)
  {
    if |positions| > 0 {
      var init := positions[..|positions| - 1];
      var last := positions[|positions| - 1];
      assert forall k :: 0 <= k < |init| ==> init[k] == positions[k];
      CategoriesMembers(init, c);
      assert CategoryOf(last).Ok? <==> last[0] != '.';
      assert (forall k :: 0 <= k < |positions| ==> positions[k][0] != '.')
        <==> (forall k :: 0 <= k < |init| ==> init[k][0] != '.') && last[0] != '.';
    }
  }

  /** One line of the tree-positions file: its first token and the categories of the
      others. A blank line is an IndexError (`sl[0]`). */
  function TreeLine(line: string): (r: Result<(string, set<char>)>)
    ensures r.Err? ==> r.error == IndexError
  {
    var sl := SplitWs(Strip(line));
    if |sl| == 0 then Err(IndexError)
    else
      var cs :- Categories(sl[1..]);
      Ok((sl[0], cs))
  }

  /** A line is read exactly when it has a first token and no later token starts with
      '.'; it maps that token to the first letters of the later ones. */
  lemma TreeLineMembers(line: string, c: char)
    ensures var sl := SplitWs(Strip(line));
      && (TreeLine(line).Ok? <==> |sl| > 0 && forall k :: 1 <= k < |sl| ==> sl[k][0] != '.')
      && (TreeLine(line).Ok? ==>
            TreeLine(line).value.0 == sl[0] && (c in TreeLine(line).value.1 <==> exists k :: 1 <= k < |sl| && sl[k][0] == c))
  {
    var sl := SplitWs(Strip(line));
    if |sl| > 0 {
      var rest := sl[1..];
      CategoriesMembers(rest, c);
      assert forall k :: 0 <= k < |rest| ==> rest[k] == sl[k + 1];
      if TreeLine(line).Ok? {
        forall k | 1 <= k < |sl| && sl[k][0] == c ensures exists j :: 0 <= j < |rest| && rest[j][0] == c {
          assert rest[k - 1][0] == c;
        }
      }
      assert (forall k :: 0 <= k < |rest| ==> rest[k][0] != '.') ==> forall k :: 1 <= k < |sl| ==> sl[k][0] != '.';
    }
  }

  /** Each line, read on its own. */
  function Entries(lines: seq<string>): (r: seq<Result<(string, set<char>)>>)
    ensures |r| == |lines|
    ensures forall k :: 0 <= k < |lines| ==> r[k] == TreeLine(lines[k])
  {
    seq(|lines|, k requires 0 <= k < |lines| => TreeLine(lines[k]))
  }

  /** The dict a loop of `d[key] = value` assignments builds from the entries, stopping
      at the first error. */
  function Collect<K, V>(es: seq<Result<(K, V)>>): (r: Result<map<K, V>>)
    ensures r.Err? ==> exists k :: 0 <= k < |es| && es[k] == Err(r.error)
  {
    if |es| == 0 then Ok(map[])
    else
      var init := Collect(es[..|es| - 1]);
      var e := es[|es| - 1];
      if init.Err? then
        assert es[..|es| - 1] <= es;
        init
      else if e.Err? then Err(e.error)
      else Ok(init.value[e.value.0 := e.value.1])
  }

  lemma {:induction false} CollectFails<K, V>(es: seq<Result<(K, V)>>)
    ensures Collect(es).Err? <==> exists k :: 0 <= k < |es| && es[k].Err?
  {
    if |es| > 0 {
      var init := es[..|es| - 1];
      CollectFails(init);
      assert forall k :: 0 <= k < |init| ==> init[k] == es[k];
    }
  }

  /** Entry `k` assigns `v` to key `d`, and no later entry assigns `d`. */
  ghost predicate LastAssigns<K, V>(es: seq<Result<(K, V)>>, k: int, d: K, v: V) {
    0 <= k < |es| && es[k] == Ok((d, v)) && forall j :: k < j < |es| ==> es[j].Ok? && es[j].value.0 != d
  }

  /** A key is present exactly when some entry assigns it, with the value of the last
      such entry. */
  lemma {:induction false} CollectLastWins<K, V>(es: seq<Result<(K, V)>>, d: K)
    requires Collect(es).Ok?
    ensures forall k :: 0 <= k < |es| ==> es[k].Ok?
    ensures d in Collect(es).value <==> exists k :: 0 <= k < |es| && es[k].value.0 == d
    ensures d in Collect(es).value ==> exists k :: LastAssigns(es, k, d, Collect(es).value[d])
  {
    if |es| > 0 {
      var init := es[..|es| - 1];
      var n := |es| - 1;
      CollectLastWins(init, d);
      assert forall k :: 0 <= k < |init| ==> init[k] == es[k];
      if es[n].value.0 == d {
        assert LastAssigns(es, n, d, Collect(es).value[d]);
      } else if d in Collect(es).value {
        var k :| LastAssigns(init, k, d, Collect(init).value[d]);
        assert LastAssigns(es, k, d, Collect(es).value[d]);
      }
    }
  }

  /** Once a prefix fails, the whole loop fails with the same error. */
  lemma {:induction false} CollectPrefixFails<K, V>(es: seq<Result<(K, V)>>, n: nat)
    requires n <= |es| && Collect(es[..n]).Err?
    ensures Collect(es) == Collect(es[..n])
    decreases |es| - n
  {
    if n < |es| {
      assert es[..n + 1][..n] == es[..n];
      CollectPrefixFails(es, n + 1);
    } else {
      assert es[..n] == es;
    }
  }

  /** `node_coord` after the loop has read `lines`, or the first IndexError. */
  function TreePositions(lines: seq<string>): (r: Result<map<string, set<char>>>)
    ensures r.Err? ==> r.error == IndexError
  {
    Collect(Entries(lines))
  }

  /** The read fails exactly when some line is blank or has a position starting with '.'. */
  lemma TreePositionsFails(lines: seq<string>)
    ensures TreePositions(lines).Err? <==> exists k :: 0 <= k < |lines| && TreeLine(lines[k]).Err?
  {
    CollectFails(Entries(lines));
  }

  /** Otherwise a descriptor is mapped exactly when some line starts with it, and to the
      categories of the last such line: a repeated descriptor is overwritten. */
  lemma TreePositionsLastWins(lines: seq<string>, d: string)
    requires TreePositions(lines).Ok?
    ensures forall k :: 0 <= k < |lines| ==> TreeLine(lines[k]).Ok?
    ensures d in TreePositions(lines).value <==> exists k :: 0 <= k < |lines| && TreeLine(lines[k]).value.0 == d
    ensures d in TreePositions(lines).value ==> exists k :: LastAssigns(Entries(lines), k, d, TreePositions(lines).value[d])
  {
    CollectLastWins(Entries(lines), d);
  }

  /** `readTreePositions`, over the lines of the file. */
  method ReadTreePositions(lines: seq<string>) returns (r: Result<map<string, set<char>>>)
    ensures r == TreePositions(lines)
  {
    var nodeCoord: map<string, set<char>> := map[];
    for k := 0 to |lines|
      invariant Collect(Entries(lines)[..k]) == Ok(nodeCoord)
    {
      assert Entries(lines)[..k + 1][..k] == Entries(lines)[..k];
      var t := TreeLine(lines[k]);
      if t.Err? {
        CollectPrefixFails(Entries(lines), k + 1);
        return Err(t.error);
      }
      nodeCoord := nodeCoord[t.value.0 := t.value.1];
    }
    assert Entries(lines)[..|lines|] == Entries(lines);
    return Ok(nodeCoord);
  }

  // ----- the pair loops -----

  /** A written line: `d1`, `d2`, similarity. */
  type Emitted = (string, string, real)

  /** The similarity of a pair of objects, over the sets of their filtered descriptors; an
      object without any counts with the empty set. */
  function PairSimilarity(m: Measure, fv: map<string, seq<string>>, pr: (string, string)): real {
    Similarity(m, Elems(GetList(fv, pr.0)), Elems(GetList(fv, pr.1)))
  }

  /** The lines the loop writes for `pairs`: one per pair whose similarity is positive. */
  function Emissions(m: Measure, fv: map<string, seq<string>>, pairs: seq<(string, string)>): (r: seq<Emitted>)
    ensures |r| <= |pairs|
  {
    if |pairs| == 0 then []
    else
      var pr := pairs[|pairs| - 1];
      var s := PairSimilarity(m, fv, pr);
      Emissions(m, fv, pairs[..|pairs| - 1]) + (if s > 0.0 then [(pr.0, pr.1, s)] else [])
  }

  /** The `zero` counter: the pairs whose similarity is not positive. */
  function Zeros(m: Measure, fv: map<string, seq<string>>, pairs: seq<(string, string)>): nat {
    if |pairs| == 0 then 0
    else Zeros(m, fv, pairs[..|pairs| - 1]) + (if PairSimilarity(m, fv, pairs[|pairs| - 1]) > 0.0 then 0 else 1)
  }

  /** Every pair is either written or counted as zero: `zero + written == total`. */
  lemma {:induction false} ZerosBalance(m: Measure, fv: map<string, seq<string>>, pairs: seq<(string, string)>)
    ensures Zeros(m, fv, pairs) + |Emissions(m, fv, pairs)| == |pairs|
  {
    if |pairs| > 0 {
      ZerosBalance(m, fv, pairs[..|pairs| - 1]);
    }
  }

  /** A line is written exactly for a visited pair whose objects share a descriptor, and
      it carries that pair's similarity. */
  lemma {:induction false} EmissionsMembers(m: Measure, fv: map<string, seq<string>>, pairs: seq<(string, string)>, e: Emitted)
    ensures e in Emissions(m, fv, pairs) <==>
      (e.0, e.1) in pairs && e.2 == PairSimilarity(m, fv, (e.0, e.1))
      && Elems(GetList(fv, e.0)) * Elems(GetList(fv, e.1)) != {}
  {
    if |pairs| > 0 {
      var init := pairs[..|pairs| - 1];
      EmissionsMembers(m, fv, init, e);
      assert pairs == init + [pairs[|pairs| - 1]];
    }
  }

  /** The body of the pair loop over `pairs`, with its `zero` and `total` counters. */
  method EmitPairs(m: Measure, fv: map<string, seq<string>>, pairs: seq<(string, string)>)
    returns (lines: seq<Emitted>, zero: nat, total: nat)
    ensures lines == Emissions(m, fv, pairs)
    ensures zero == Zeros(m, fv, pairs) && total == |pairs|
    ensures zero + |lines| == total
  {
    lines, zero, total := [], 0, 0;
    for k := 0 to |pairs|
      invariant lines == Emissions(m, fv, pairs[..k])
      invariant zero == Zeros(m, fv, pairs[..k]) && total == k
    {
      assert pairs[..k + 1][..k] == pairs[..k];
      var (d1, d2) := pairs[k];
      var similarity := Similarity(m, Elems(GetList(fv, d1)), Elems(GetList(fv, d2)));
      if similarity > 0.0 {
        lines := lines + [(d1, d2, similarity)];
      } else {
        zero := zero + 1;
      }
      total := total + 1;
    }
    assert pairs[..|pairs|] == pairs;
    ZerosBalance(m, fv, pairs);
  }

  /** What `compute_combined` writes: the output file's name and its lines, over every
      pair of the objects of `values` (filtered or not). */
  ghost function Combined(values: map<string, seq<string>>, outputFolder: string, filenameModifier: string, m: Measure,
                          treePositions: map<string, set<char>>, filterList: set<char>): (string, seq<Emitted>)
  {
    (outputFolder + filenameModifier + "_" + Name(m),
     Emissions(m, Filtered(values, filterList, treePositions), Pairs(SortedKeys(values.Keys))))
  }

  /** `compute_combined`: a KeyError for an unknown measure, raised before anything is written. */
  method ComputeCombined(values: map<string, seq<string>>, outputFolder: string, filenameModifier: string, methodKey: int,
                         treePositions: map<string, set<char>>, filterList: set<char>)
    returns (r: Result<(string, seq<Emitted>)>)
    ensures r.Err? <==> !(0 <= methodKey < 4)
    ensures r.Err? ==> r.error == KeyError
    ensures r.Ok? ==> r.value == Combined(values, outputFolder, filenameModifier, MeasureOf(methodKey).value, treePositions, filterList)
  {
    var m :- MeasureOf(methodKey);
    var filteredValues := FilterAnnotation(values, filterList, treePositions);
    var name := outputFolder + filenameModifier + "_" + Name(m);
    var keys := Sorted(values.Keys);
    var lines, _, _ := EmitPairs(m, filteredValues, Pairs(keys));
    return Ok((name, lines));
  }

  /** Combined mode writes, for two objects `d1 < d2`, one line exactly when their
      filtered descriptor sets meet, with their similarity; each such pair once. */
  lemma CombinedLines(values: map<string, seq<string>>, outputFolder: string, filenameModifier: string, m: Measure,
                      treePositions: map<string, set<char>>, filterList: set<char>, e: Emitted)
    ensures var fv := Filtered(values, filterList, treePositions);
      e in Combined(values, outputFolder, filenameModifier, m, treePositions, filterList).1 <==>
        e.0 in values && e.1 in values && StrLess(e.0, e.1)
        && Elems(GetList(fv, e.0)) * Elems(GetList(fv, e.1)) != {}
        && e.2 == Similarity(m, Elems(GetList(fv, e.0)), Elems(GetList(fv, e.1)))
    ensures Distinct(Combined(values, outputFolder, filenameModifier, m, treePositions, filterList).1)
  {
    var fv := Filtered(values, filterList, treePositions);
    var keys := SortedKeys(values.Keys);
    StrLessOrder();
    EmissionsMembers(m, fv, Pairs(keys), e);
    PairsMembers(keys, e.0, e.1);
    if (e.0, e.1) in Pairs(keys) {
      PairsIncreasing(StrLess, keys, e.0, e.1);
    }
    if e.0 in values && e.1 in values && StrLess(e.0, e.1) {
      SortedPairs(StrLess, keys, e.0, e.1);
    }
    DistinctKeys(keys);
    PairsOnce(keys);
    EmissionsOnce(m, fv, Pairs(keys));
  }

  /** Pairs visited once give lines written once. */
  lemma {:induction false} EmissionsOnce(m: Measure, fv: map<string, seq<string>>, pairs: seq<(string, string)>)
    requires Distinct(pairs)
    ensures Distinct(Emissions(m, fv, pairs))
  {
    if |pairs| > 0 {
      var init := pairs[..|pairs| - 1];
      var last := pairs[|pairs| - 1];
      assert Distinct(init) by {
        forall i, j | 0 <= i < j < |init| ensures init[i] != init[j] {
          assert init[i] == pairs[i] && init[j] == pairs[j];
        }
      }
      EmissionsOnce(m, fv, init);
      var r := Emissions(m, fv, init);
      forall k | 0 <= k < |r| ensures (r[k].0, r[k].1) != last {
        EmissionsMembers(m, fv, init, r[k]);
        assert (r[k].0, r[k].1) in init;
      }
    }
  }

  // ----- compute_per_ontology -----

  /** The keys of `available_ontologies`, in the dict's insertion order. */
  const Ontologies: seq<char> := ['A', 'B', 'C', 'D', 'E', 'F', 'G', 'H', 'I', 'J', 'K', 'L', 'M', 'N', 'Z']

  /** One file of `compute_per_ontology`: its name, its lines and the final counters. */
  datatype OntologyRun = OntologyRun(name: string, lines: seq<Emitted>, zero: nat, total: nat)

  /** The run for one ontology: only the objects left with a descriptor in it are paired. */
  ghost function PerOntology(values: map<string, seq<string>>, outputFolder: string, m: Measure,
                             treePositions: map<string, set<char>>, ontology: char): OntologyRun
  {
    var fv := Filtered(values, {ontology}, treePositions);
    var pairs := Pairs(SortedKeys(fv.Keys));
    OntologyRun(outputFolder + [ontology] + "_" + Name(m), Emissions(m, fv, pairs), Zeros(m, fv, pairs), |pairs|)
  }

  /** `compute_per_ontology`: one run per ontology in order; a KeyError for an unknown
      measure, raised before anything is written. */
  method ComputePerOntology(values: map<string, seq<string>>, outputFolder: string, key: int,
                            treePositions: map<string, set<char>>)
    returns (r: Result<seq<OntologyRun>>)
    ensures r.Err? <==> !(0 <= key < 4)
    ensures r.Err? ==> r.error == KeyError
    ensures r.Ok? ==> |r.value| == |Ontologies|
    ensures r.Ok? ==> forall k :: 0 <= k < |Ontologies| ==>
      r.value[k] == PerOntology(values, outputFolder, MeasureOf(key).value, treePositions, Ontologies[k])
  {
    var m :- MeasureOf(key);
    var runs: seq<OntologyRun> := [];
    for k := 0 to |Ontologies|
      invariant |runs| == k
      invariant forall j :: 0 <= j < k ==> runs[j] == PerOntology(values, outputFolder, m, treePositions, Ontologies[j])
    {
      var run := ComputeOntology(values, outputFolder, m, treePositions, Ontologies[k]);
      runs := runs + [run];
    }
    return Ok(runs);
  }

  /** One turn of the ontology loop: the file name, the filtered annotation and the pairs
      of its sorted objects. */
  method ComputeOntology(values: map<string, seq<string>>, outputFolder: string, m: Measure,
                         treePositions: map<string, set<char>>, current: char)
    returns (run: OntologyRun)
    ensures run == PerOntology(values, outputFolder, m, treePositions, current)
  {
    var name := outputFolder + [current] + "_" + Name(m);
    var filteredValues := FilterAnnotation(values, {current}, treePositions);
    var keys := Sorted(filteredValues.Keys);
    var lines, zero, total := EmitPairs(m, filteredValues, Pairs(keys));
    run := OntologyRun(name, lines, zero, total);
  }

  /** Per ontology, the pairs are those of the objects with a descriptor in it, `zero`
      plus the lines written is `total`, and `total` is `n(n-1)/2` for `n` such objects. */
  lemma PerOntologyCounts(values: map<string, seq<string>>, outputFolder: string, m: Measure,
                          treePositions: map<string, set<char>>, ontology: char)
    ensures var run := PerOntology(values, outputFolder, m, treePositions, ontology);
      var n := |Filtered(values, {ontology}, treePositions)|;
      run.zero + |run.lines| == run.total && 2 * run.total == n * (n - 1)
  {
    var fv := Filtered(values, {ontology}, treePositions);
    var keys := SortedKeys(fv.Keys);
    ZerosBalance(m, fv, Pairs(keys));
    PairsLength(keys);
    DistinctKeys(keys);
    DistinctCard(keys, fv.Keys);
  }

}
