/** `buildBenchmarks.py`: the table that sets, for every pair of testable diseases, the
    similarity under evaluation beside the ground truth. Files are given as their lines,
    without line terminators; `float()` is a parameter that answers `None` where Python
    raises a ValueError. */
module BuildBenchmarks {
  import opened Wrappers
  import opened Strings
  import opened Combinations
  import opened Tables

  // ----- readDiseasesWithProteins -----

  /** A line of the diseases file adds the one integer it holds. */
  function DiseaseRow(line: string): (r: Result<seq<int>>)
    ensures r.Err? ==> r.error == ValueError
    ensures r.Ok? <==> ParseInt(Strip(line)).Ok?
    ensures r.Ok? ==> r.value == [ParseInt(Strip(line)).value]
  {
    var id :- ParseInt(Strip(line));
    Ok([id])
  }

  function DiseaseRows(lines: seq<string>): seq<Result<seq<int>>> {
    seq(|lines|, k requires 0 <= k < |lines| => DiseaseRow(lines[k]))
  }

  /** The set `readDiseasesWithProteins` returns. */
  function DiseasesWithProteins(lines: seq<string>): Result<set<int>> {
    Collected(DiseaseRows(lines))
  }

  /** A line that is not an integer is a ValueError; otherwise the ids are exactly the
      integers of the lines. */
  lemma DiseasesWithProteinsMeaning(lines: seq<string>, x: int)
    ensures var r := DiseasesWithProteins(lines);
      && (r.Err? <==> exists k :: 0 <= k < |lines| && DiseaseRow(lines[k]).Err?)
      && (r.Err? ==> r.error == ValueError)
      && (r.Ok? ==> (x in r.value <==> exists k :: 0 <= k < |lines| && DiseaseRow(lines[k]) == Ok([x])))
  {
    DiseasesWithProteinsFails(lines);
    if DiseasesWithProteins(lines).Ok? {
      DiseasesWithProteinsMembers(lines, x);
    }
  }

  lemma DiseasesWithProteinsFails(lines: seq<string>)
    ensures var r := DiseasesWithProteins(lines);
      && (r.Err? <==> exists k :: 0 <= k < |lines| && DiseaseRow(lines[k]).Err?)
      && (r.Err? ==> r.error == ValueError)
  {
    var es := DiseaseRows(lines);
    CollectedFails(es);
    assert forall k :: 0 <= k < |lines| ==> es[k] == DiseaseRow(lines[k]);
  }

  lemma DiseasesWithProteinsMembers(lines: seq<string>, x: int)
    requires DiseasesWithProteins(lines).Ok?
    ensures x in DiseasesWithProteins(lines).value <==> exists k :: 0 <= k < |lines| && DiseaseRow(lines[k]) == Ok([x])
  {
    var es := DiseaseRows(lines);
    assert forall k :: 0 <= k < |lines| ==> es[k] == DiseaseRow(lines[k]);
    CollectedSingles(es, x);
  }

  /** `readDiseasesWithProteins`, over the lines of the file. */
  method ReadDiseasesWithProteins(lines: seq<string>) returns (r: Result<set<int>>)
    ensures r == DiseasesWithProteins(lines)
  {
    var values := {};
    ghost var es := DiseaseRows(lines);
    for k := 0 to |lines|
      invariant Collected(es[..k]) == Ok(values)
    {
      var id := ParseInt(Strip(lines[k]));
      if id.Err? {
        CollectedStops(es, k);
        return Err(id.error);
      }
      assert es[k] == Ok([id.value]);
      CollectedStep(es, k, values);
      assert Elems([id.value]) == {id.value};
      values := values + {id.value};
    }
    assert es[..|lines|] == es;
    return Ok(values);
  }

  // ----- get_ids_from_file -----

  /** A line of a matrix file: exactly three fields, the first two of them integers. */
  ghost predicate MatrixLine(line: string) {
    var f := SplitWs(line);
    |f| == 3 && ParseInt(f[0]).Ok? && ParseInt(f[1]).Ok?
  }

  /** A line of the matrix file adds its two ids. */
  function IdsRow(line: string): (r: Result<seq<int>>)
    ensures r.Ok? ==> |r.value| == 2
  {
    var f := SplitWs(line);
    if |f| != 3 then Err(ValueError)
    else
      var omim1 :- ParseInt(f[0]);
      var omim2 :- ParseInt(f[1]);
      Ok([omim1, omim2])
  }

  /** Only a matrix line adds ids, and it adds its first two columns; anything else is a
      ValueError. */
  lemma IdsRowMeaning(line: string)
    ensures var r := IdsRow(line);
      && (r.Err? ==> r.error == ValueError)
      && (r.Ok? <==> MatrixLine(line))
      && (r.Ok? ==> r.value == [ParseInt(SplitWs(line)[0]).value, ParseInt(SplitWs(line)[1]).value])
  {
  }

  function IdsRows(lines: seq<string>): seq<Result<seq<int>>> {
    seq(|lines|, k requires 0 <= k < |lines| => IdsRow(lines[k]))
  }

  /** The set `get_ids_from_file` returns. */
  function IdsInFile(lines: seq<string>): Result<set<int>> {
    Collected(IdsRows(lines))
  }

  /** A line that is not three fields with two integers first is a ValueError; otherwise
      the ids are exactly those of the first two columns. */
  lemma IdsInFileMeaning(lines: seq<string>, x: int)
    ensures var r := IdsInFile(lines);
      && (r.Err? <==> exists k :: 0 <= k < |lines| && !MatrixLine(lines[k]))
      && (r.Err? ==> r.error == ValueError)
      && (r.Ok? ==> (x in r.value <==> (exists k :: 0 <= k < |lines| && x in IdsRow(lines[k]).value)))
  {
    var es := IdsRows(lines);
    CollectedFails(es);
    forall k | 0 <= k < |lines| ensures es[k] == IdsRow(lines[k]) && (es[k].Err? <==> !MatrixLine(lines[k])) {
      IdsRowMeaning(lines[k]);
    }
    if Collected(es).Err? {
      var k :| 0 <= k < |es| && es[k] == Err(Collected(es).error);
      IdsRowMeaning(lines[k]);
    }
    if Collected(es).Ok? {
      CollectedMembers(es, x);
    }
  }

  /** One line of `get_ids_from_file`'s loop: the two ids it adds. */
  method ReadIdsRow(line: string) returns (r: Result<seq<int>>)
    ensures r == IdsRow(line)
  {
    var f := SplitWs(line);
    if |f| != 3 {
      return Err(ValueError);
    }
    var omim1 :- ParseInt(f[0]);
    var omim2 :- ParseInt(f[1]);
    return Ok([omim1, omim2]);
  }

  /** `get_ids_from_file`, over the lines of the file. */
  method GetIdsFromFile(lines: seq<string>) returns (r: Result<set<int>>)
    ensures r == IdsInFile(lines)
  {
    var idsInFile := {};
    ghost var es := IdsRows(lines);
    for k := 0 to |lines|
      invariant Collected(es[..k]) == Ok(idsInFile)
    {
      var ids := ReadIdsRow(lines[k]);
      assert es[k] == ids;
      if ids.Err? {
        CollectedStops(es, k);
        return Err(ids.error);
      }
      CollectedStep(es, k, idsInFile);
      ghost var before := idsInFile;
      assert Collected(es[..k + 1]) == Ok(before + Elems(ids.value));
      assert ids.value == [ids.value[0], ids.value[1]];
      assert Elems(ids.value) == {ids.value[0]} + {ids.value[1]};
      idsInFile := idsInFile + {ids.value[0]} + {ids.value[1]};
      assert idsInFile == before + Elems(ids.value);
      assert Collected(es[..k + 1]) == Ok(idsInFile);
    }
    assert es[..|lines|] == es;
    return Ok(idsInFile);
  }

  // ----- extract_subset -----

  /** `sorted([a, b])` as a pair. */
  function Ordered(a: int, b: int): (int, int) {
    if a <= b then (a, b) else (b, a)
  }

  /** A line of a matrix file: an error, skipped, or the similarity of an unordered pair. */
  function SubsetRow(line: string, ids: set<int>, toFloat: string -> Option<real>): (r: Result<Option<((int, int), real)>>)
    ensures r.Err? ==> r.error == ValueError
    ensures r.Ok? && r.value.Some? ==> var (a, b) := r.value.value.0; a < b && a in ids && b in ids
  {
    var f := SplitWs(Strip(line));
    if |f| != 3 then Err(ValueError)
    else
      var omim1 :- ParseInt(f[0]);
      var omim2 :- ParseInt(f[1]);
      if omim1 in ids && omim2 in ids && omim1 != omim2 then
        match toFloat(f[2])
        case None => Err(ValueError)
        case Some(v) => Ok(Some((Ordered(omim1, omim2), v)))
      else Ok(None)
  }

  /** A line sets pair `(a, b)` exactly when it is well formed, its two ids are `a` and
      `b` in either order, both testable, `a < b`, and its similarity reads as a number;
      the value set is that number. */
  lemma SubsetRowSets(line: string, ids: set<int>, toFloat: string -> Option<real>, a: int, b: int, v: real)
    ensures var f := SplitWs(Strip(line));
      SubsetRow(line, ids, toFloat) == Ok(Some(((a, b), v))) <==>
        && |f| == 3 && a < b && a in ids && b in ids && toFloat(f[2]) == Some(v)
        && ((ParseInt(f[0]) == Ok(a) && ParseInt(f[1]) == Ok(b)) || (ParseInt(f[0]) == Ok(b) && ParseInt(f[1]) == Ok(a)))
  {
    var f := SplitWs(Strip(line));
    if |f| == 3 && ParseInt(f[0]).Ok? && ParseInt(f[1]).Ok? {
      var x, y := ParseInt(f[0]).value, ParseInt(f[1]).value;
      assert SubsetRow(line, ids, toFloat) ==
        if x in ids && y in ids && x != y then
          (if toFloat(f[2]).None? then Err(ValueError) else Ok(Some((Ordered(x, y), toFloat(f[2]).value))))
        else Ok(None);
    } else {
      assert SubsetRow(line, ids, toFloat).Err?;
    }
  }

  function SubsetRows(lines: seq<string>, ids: set<int>, toFloat: string -> Option<real>): seq<Result<Option<((int, int), real)>>> {
    seq(|lines|, k requires 0 <= k < |lines| => SubsetRow(lines[k], ids, toFloat))
  }

  /** The dict `extract_subset` returns. */
  function Subset(lines: seq<string>, ids: set<int>, toFloat: string -> Option<real>): Result<map<(int, int), real>> {
    Assigned(SubsetRows(lines, ids, toFloat))
  }

  /** Errors are ValueErrors. A key is an increasing pair of testable ids that some line
      sets, and it holds the value of the last line that sets it. */
  lemma SubsetMeaning(lines: seq<string>, ids: set<int>, toFloat: string -> Option<real>, a: int, b: int)
    ensures var r := Subset(lines, ids, toFloat);
      && (r.Err? <==> exists k :: 0 <= k < |lines| && SubsetRow(lines[k], ids, toFloat).Err?)
      && (r.Err? ==> r.error == ValueError)
      && (r.Ok? ==> ((a, b) in r.value <==> exists k :: 0 <= k < |lines| && Sets(SubsetRow(lines[k], ids, toFloat), (a, b))))
      && (r.Ok? && (a, b) in r.value ==> a < b && a in ids && b in ids)
      && (r.Ok? && (a, b) in r.value ==>
            (exists k :: 0 <= k < |lines|
              && SubsetRow(lines[k], ids, toFloat) == Ok(Some(((a, b), r.value[(a, b)])))
              && forall j :: k < j < |lines| ==> !Sets(SubsetRow(lines[j], ids, toFloat), (a, b))))
  {
    var es := SubsetRows(lines, ids, toFloat);
    AssignedFails(es);
    assert forall k :: 0 <= k < |lines| ==> es[k] == SubsetRow(lines[k], ids, toFloat);
    if Assigned(es).Ok? {
      AssignedLast(es, (a, b));
    }
  }

  /** One line of `extract_subset`'s loop. */
  method ReadSubsetRow(line: string, ids: set<int>, toFloat: string -> Option<real>)
    returns (r: Result<Option<((int, int), real)>>)
    ensures r == SubsetRow(line, ids, toFloat)
  {
    var f := SplitWs(Strip(line));
    if |f| != 3 {
      return Err(ValueError);
    }
    var omim1 :- ParseInt(f[0]);
    var omim2 :- ParseInt(f[1]);
    if omim1 in ids && omim2 in ids && omim1 != omim2 {
      var simi := toFloat(f[2]);
      if simi.None? {
        return Err(ValueError);
      }
      var (mini, maxi) := Ordered(omim1, omim2);
      return Ok(Some(((mini, maxi), simi.value)));
    }
    return Ok(None);
  }

  /** `extract_subset`, over the lines of the file. */
  method ExtractSubset(lines: seq<string>, ids: set<int>, toFloat: string -> Option<real>)
    returns (r: Result<map<(int, int), real>>)
    ensures r == Subset(lines, ids, toFloat)
  {
    var matrix := map[];
    ghost var es := SubsetRows(lines, ids, toFloat);
    for k := 0 to |lines|
      invariant Assigned(es[..k]) == Ok(matrix)
    {
      var row := ReadSubsetRow(lines[k], ids, toFloat);
      if row.Err? {
        AssignedStops(es, k);
        return Err(row.error);
      }
      AssignedStep(es, k, matrix);
      if row.value.Some? {
        var (key, simi) := row.value.value;
        matrix := matrix[key := simi];
      }
    }
    assert es[..|lines|] == es;
    return Ok(matrix);
  }

  // ----- print_intersection_matrix -----

  /** An output row: the pair, then the similarity from `file2`, then the one from
      `file1`. */
  datatype Record = Record(id1: int, id2: int, disim: real, truth: real)

  /** A pair missing from a matrix reads as 0.0. */
  function Lookup(m: map<(int, int), real>, p: (int, int)): real {
    if p in m then m[p] else 0.0
  }

  function RecordOf(truth: map<(int, int), real>, disim: map<(int, int), real>, p: (int, int)): Record {
    Record(p.0, p.1, Lookup(disim, p), Lookup(truth, p))
  }

  function Records(truth: map<(int, int), real>, disim: map<(int, int), real>, pairs: seq<(int, int)>): seq<Record> {
    seq(|pairs|, k requires 0 <= k < |pairs| => RecordOf(truth, disim, pairs[k]))
  }

  /** The rows `print_intersection_matrix` writes, or the error that stops it before it
      writes any. */
  ghost function IntersectionMatrix(file1: seq<string>, file2: seq<string>, ids: set<int>, toFloat: string -> Option<real>): Result<seq<Record>> {
    var truth :- Subset(file1, ids, toFloat);
    var disim :- Subset(file2, ids, toFloat);
    IntLessOrder();
    Ok(Records(truth, disim, Pairs(SortedOf(IntLess, ids))))
  }

  /** It fails, with a ValueError, exactly when one of the two files does. */
  lemma IntersectionFails(file1: seq<string>, file2: seq<string>, ids: set<int>, toFloat: string -> Option<real>)
    ensures var r := IntersectionMatrix(file1, file2, ids, toFloat);
      && (r.Err? <==> Subset(file1, ids, toFloat).Err? || Subset(file2, ids, toFloat).Err?)
      && (r.Err? ==> r.error == ValueError)
  {
    SubsetMeaning(file1, ids, toFloat, 0, 0);
    SubsetMeaning(file2, ids, toFloat, 0, 0);
  }

  /** Each row holds an increasing pair of ids, its similarity from `file2` and its
      ground truth from `file1`, 0.0 where a file does not have the pair. */
  lemma IntersectionRows(file1: seq<string>, file2: seq<string>, ids: set<int>, toFloat: string -> Option<real>, k: nat)
    requires IntersectionMatrix(file1, file2, ids, toFloat).Ok?
    requires k < |IntersectionMatrix(file1, file2, ids, toFloat).value|
    ensures var row := IntersectionMatrix(file1, file2, ids, toFloat).value[k];
      && row.id1 < row.id2 && row.id1 in ids && row.id2 in ids
      && row.disim == Lookup(Subset(file2, ids, toFloat).value, (row.id1, row.id2))
      && row.truth == Lookup(Subset(file1, ids, toFloat).value, (row.id1, row.id2))
  {
    IntLessOrder();
    var list := SortedOf(IntLess, ids);
    var pairs := Pairs(list);
    var p := pairs[k];
    assert p in pairs;
    PairsIncreasing(IntLess, list, p.0, p.1);
    PairsMembers(list, p.0, p.1);
  }

  /** Every increasing pair of ids has a row. */
  lemma IntersectionCovers(file1: seq<string>, file2: seq<string>, ids: set<int>, toFloat: string -> Option<real>, a: int, b: int)
    requires IntersectionMatrix(file1, file2, ids, toFloat).Ok?
    requires a in ids && b in ids && a < b
    ensures var rows := IntersectionMatrix(file1, file2, ids, toFloat).value;
      exists k :: 0 <= k < |rows| && rows[k].id1 == a && rows[k].id2 == b
  {
    IntLessOrder();
    var list := SortedOf(IntLess, ids);
    var pairs := Pairs(list);
    SortedPairs(IntLess, list, a, b);
    var k :| 0 <= k < |pairs| && pairs[k] == (a, b);
    assert IntersectionMatrix(file1, file2, ids, toFloat).value[k].id1 == a;
  }

  /** The rows come in increasing lexicographic order of their pairs, so none repeats,
      and there are `n(n-1)/2` of them for `n` ids. */
  lemma IntersectionOrder(file1: seq<string>, file2: seq<string>, ids: set<int>, toFloat: string -> Option<real>, i: nat, j: nat)
    requires IntersectionMatrix(file1, file2, ids, toFloat).Ok?
    ensures var rows := IntersectionMatrix(file1, file2, ids, toFloat).value;
      i < j < |rows| ==> rows[i].id1 < rows[j].id1 || (rows[i].id1 == rows[j].id1 && rows[i].id2 < rows[j].id2)
    ensures 2 * |IntersectionMatrix(file1, file2, ids, toFloat).value| == |ids| * (|ids| - 1)
  {
    IntersectionSorted(file1, file2, ids, toFloat, i, j);
    IntersectionCount(file1, file2, ids, toFloat);
  }

  lemma IntersectionSorted(file1: seq<string>, file2: seq<string>, ids: set<int>, toFloat: string -> Option<real>, i: nat, j: nat)
    requires IntersectionMatrix(file1, file2, ids, toFloat).Ok?
    ensures var rows := IntersectionMatrix(file1, file2, ids, toFloat).value;
      i < j < |rows| ==> rows[i].id1 < rows[j].id1 || (rows[i].id1 == rows[j].id1 && rows[i].id2 < rows[j].id2)
  {
    IntLessOrder();
    var list := SortedOf(IntLess, ids);
    var pairs := Pairs(list);
    if i < j < |pairs| {
      PairsLexicographic(IntLess, list, i, j);
    }
  }

  lemma IntersectionCount(file1: seq<string>, file2: seq<string>, ids: set<int>, toFloat: string -> Option<real>)
    requires IntersectionMatrix(file1, file2, ids, toFloat).Ok?
    ensures 2 * |IntersectionMatrix(file1, file2, ids, toFloat).value| == |ids| * (|ids| - 1)
  {
    IntLessOrder();
    var list := SortedOf(IntLess, ids);
    var pairs := Pairs(list);
    assert |IntersectionMatrix(file1, file2, ids, toFloat).value| == |pairs|;
    assert |list| == |ids| by {
      DistinctCard(list, ids);
    }
    assert 2 * |pairs| == |list| * (|list| - 1) by {
      PairsLength(list);
    }
  }

  /** The loop of `print_intersection_matrix` over the pairs: one row per pair, in order. */
  method RowsOf(matrixGroundTruth: map<(int, int), real>, matrixDisim: map<(int, int), real>, pairs: seq<(int, int)>)
    returns (out: seq<Record>)
    ensures out == Records(matrixGroundTruth, matrixDisim, pairs)
  {
    out := [];
    for k := 0 to |pairs|
      invariant |out| == k
      invariant forall q :: 0 <= q < k ==> out[q] == RecordOf(matrixGroundTruth, matrixDisim, pairs[q])
    {
      var (id1, id2) := pairs[k];
      var simiDisim := if (id1, id2) in matrixDisim then matrixDisim[(id1, id2)] else 0.0;
      var simiGroundTruth := if (id1, id2) in matrixGroundTruth then matrixGroundTruth[(id1, id2)] else 0.0;
      out := out + [Record(id1, id2, simiDisim, simiGroundTruth)];
    }
  }

  /** `print_intersection_matrix`, producing the rows instead of writing them. */
  method PrintIntersectionMatrix(file1: seq<string>, file2: seq<string>, ids: set<int>, toFloat: string -> Option<real>)
    returns (r: Result<seq<Record>>)
    ensures r == IntersectionMatrix(file1, file2, ids, toFloat)
  {
    var matrixGroundTruth :- ExtractSubset(file1, ids, toFloat);
    var matrixDisim :- ExtractSubset(file2, ids, toFloat);
    IntLessOrder();
    var listIds := SortedSet(IntLess, ids);
    var out := RowsOf(matrixGroundTruth, matrixDisim, Pairs(listIds));
    return Ok(out);
  }

  // ----- the script -----

  /** The testable ids: those of the similarity file that have proteins. */
  function Testable(similarity: seq<string>, proteins: seq<string>): Result<set<int>> {
    var idsIn2 :- IdsInFile(similarity);
    var diseasesWithProteins :- DiseasesWithProteins(proteins);
    Ok(idsIn2 * diseasesWithProteins)
  }

  /** The rows the script writes: the intersection matrix of the ground truth and the
      similarity file over the testable ids. */
  ghost function Built(truth: seq<string>, similarity: seq<string>, proteins: seq<string>, toFloat: string -> Option<real>): Result<seq<Record>> {
    var testable :- Testable(similarity, proteins);
    IntersectionMatrix(truth, similarity, testable, toFloat)
  }

  /** Every row pairs two diseases that occur in the first two columns of the similarity
      file and both have proteins. */
  lemma BuiltIds(truth: seq<string>, similarity: seq<string>, proteins: seq<string>, toFloat: string -> Option<real>, k: nat)
    requires Built(truth, similarity, proteins, toFloat).Ok?
    requires k < |Built(truth, similarity, proteins, toFloat).value|
    ensures var row := Built(truth, similarity, proteins, toFloat).value[k];
      && row.id1 in IdsInFile(similarity).value && row.id2 in IdsInFile(similarity).value
      && row.id1 in DiseasesWithProteins(proteins).value && row.id2 in DiseasesWithProteins(proteins).value
  {
    var testable := Testable(similarity, proteins).value;
    IntersectionRows(truth, similarity, testable, toFloat, k);
  }

  /** The script, over the lines of its three input files. */
  method BuildBenchmark(truth: seq<string>, similarity: seq<string>, proteins: seq<string>, toFloat: string -> Option<real>)
    returns (r: Result<seq<Record>>)
    ensures r == Built(truth, similarity, proteins, toFloat)
  {
    var idsIn2 :- GetIdsFromFile(similarity);
    var diseasesWithProteins :- ReadDiseasesWithProteins(proteins);
    var testeableOmims := idsIn2 * diseasesWithProteins;
    r := PrintIntersectionMatrix(truth, similarity, testeableOmims, toFloat);
  }
}
