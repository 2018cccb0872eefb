/** `pfamBenchmark.py`: a benchmark of disease pairs whose proteins share a Pfam family
    outside an exclusion list. Files are given as their lines, without terminators;
    output records are `(omim1, omim2)` pairs, each written as `omim1 \t omim2 \t 1`. */
module PfamBenchmark {
  import opened Wrappers
  import opened Strings
  import opened Combinations
  import opened Tables

  /** No lower-case ASCII letter: what `upper()` leaves. */
  predicate UpperCase(s: string) {
    forall i :: 0 <= i < |s| ==> !('a' <= s[i] <= 'z')
  }

  lemma UpperIsUpperCase(s: string)
    ensures UpperCase(Upper(s))
  {
    var r := Upper(s);
    forall i | 0 <= i < |s| ensures !('a' <= r[i] <= 'z') {
      if 'a' <= s[i] <= 'z' {
        assert r[i] as int == s[i] as int - 32;
      }
    }
  }

  // ----- readPfamScan -----

  /** One line of pfam_scan output. A line starting with '#' is skipped; any other gives
      the protein id (the second '|' field of its first token) and its family (the
      seventh token, upper-cased). Too few tokens or fields is an IndexError. */
  function PfamRow(line: string): (r: Result<Option<(string, string)>>)
    ensures r.Err? ==> r.error == IndexError
  {
    if |line| > 0 && line[0] == '#' then Ok(None)
    else
      var sl := SplitWs(Strip(line));
      if |sl| == 0 then Err(IndexError)
      else
        var ids := Split(sl[0], '|');
        if |ids| < 2 || |sl| < 7 then Err(IndexError)
        else Ok(Some((ids[1], Upper(Strip(sl[6])))))
  }

  /** What a row holds, said of the line's tokens: comment lines are the only ones
      skipped, the error cases are exactly the short lines, and the family is the seventh
      token upper-cased (stripping a token changes nothing). */
  lemma PfamRowMeaning(line: string)
    ensures PfamRow(line) == Ok(None) <==> |line| > 0 && line[0] == '#'
    ensures !(|line| > 0 && line[0] == '#') ==> var sl := SplitWs(Strip(line));
      (PfamRow(line).Err? <==> |sl| < 7 || |Split(sl[0], '|')| < 2)
    ensures PfamRow(line).Ok? && PfamRow(line).value.Some? ==> var sl := SplitWs(Strip(line));
      PfamRow(line).value.value == (Split(sl[0], '|')[1], Upper(sl[6]))
    ensures PfamRow(line).Ok? && PfamRow(line).value.Some? ==> UpperCase(PfamRow(line).value.value.1)
  {
    var sl := SplitWs(Strip(line));
    if |sl| >= 7 {
      UpperIsUpperCase(sl[6]);
    }
  }

  function PfamRows(lines: seq<string>): (r: seq<Result<Option<(string, string)>>>)
    ensures |r| == |lines|
    ensures forall k :: 0 <= k < |lines| ==> r[k] == PfamRow(lines[k])
  {
    seq(|lines|, k requires 0 <= k < |lines| => PfamRow(lines[k]))
  }

  /** The protein-to-families table `readPfamScan` returns, or its IndexError. */
  function PfamScan(lines: seq<string>): (r: Result<map<string, set<string>>>)
    ensures r.Err? ==> r.error == IndexError
  {
    Grouped(PfamRows(lines))
  }

  /** The read fails exactly when a non-comment line is short; otherwise a family is
      listed for a protein exactly when some line names the two, and every family is in
      upper case. */
  lemma PfamScanMembers(lines: seq<string>, p: string, f: string)
    ensures PfamScan(lines).Err? <==> exists k :: 0 <= k < |lines| && PfamRow(lines[k]).Err?
    ensures PfamScan(lines).Ok? ==> (f in GetSet(PfamScan(lines).value, p) <==> exists k :: 0 <= k < |lines| && PfamRow(lines[k]) == Ok(Some((p, f))))
    ensures PfamScan(lines).Ok? && f in GetSet(PfamScan(lines).value, p) ==> UpperCase(f)
  {
    var es := PfamRows(lines);
    GroupedFails(es);
    if PfamScan(lines).Ok? {
      GroupedMembers(es, p, f);
      if f in GetSet(PfamScan(lines).value, p) {
        var k :| 0 <= k < |es| && es[k] == Ok(Some((p, f)));
        PfamRowMeaning(lines[k]);
      }
    }
  }

  /** The body of the line loop, as the script writes it. */
  method ReadPfamRow(line: string) returns (r: Result<Option<(string, string)>>)
    ensures r == PfamRow(line)
  {
    if |line| > 0 && line[0] == '#' {
      return Ok(None);
    }
    var sl := SplitWs(Strip(line));
    if |sl| == 0 {
      return Err(IndexError);
    }
    var ids := Split(sl[0], '|');
    if |ids| < 2 || |sl| < 7 {
      return Err(IndexError);
    }
    return Ok(Some((ids[1], Upper(Strip(sl[6])))));
  }

  /** `readPfamScan`, over the lines of the file. */
  method ReadPfamScan(lines: seq<string>) returns (r: Result<map<string, set<string>>>)
    ensures r == PfamScan(lines)
  {
    ghost var es := PfamRows(lines);
    var values: map<string, set<string>> := map[];
    for k := 0 to |lines|
      invariant Grouped(es[..k]) == Ok(values)
    {
      var row := ReadPfamRow(lines[k]);
      assert es[k] == row;
      if row.Err? {
        GroupedStops(es, k);
        return Err(row.error);
      }
      GroupedStep(es, k, values);
      if row.value.Some? {
        var (protein, family) := row.value.value;
        values := values[protein := GetSet(values, protein) + {family}];
      }
    }
    assert es[..|lines|] == es;
    return Ok(values);
  }

  // ----- readMimToProt -----

  /** One line of the omim-to-protein table: its first two tokens; IndexError with fewer. */
  function MimToProtRow(line: string): (r: Result<Option<(string, seq<string>)>>)
    ensures r.Err? <==> |SplitWs(Strip(line))| < 2
    ensures r.Err? ==> r.error == IndexError
    ensures r.Ok? ==> r.value.Some? && r.value.value == (SplitWs(Strip(line))[0], [SplitWs(Strip(line))[1]])
  {
    var sl := SplitWs(Strip(line));
    if |sl| < 2 then Err(IndexError) else Ok(Some((sl[0], [sl[1]])))
  }

  function MimToProtRows(lines: seq<string>): (r: seq<Result<Option<(string, seq<string>)>>>)
    ensures |r| == |lines|
    ensures forall k :: 0 <= k < |lines| ==> r[k] == MimToProtRow(lines[k])
  {
    seq(|lines|, k requires 0 <= k < |lines| => MimToProtRow(lines[k]))
  }

  /** The table `readMimToProt` returns, or its IndexError. */
  function MimToProt(lines: seq<string>): (r: Result<map<string, seq<string>>>)
    ensures r.Err? ==> r.error == IndexError
  {
    Appended(MimToProtRows(lines))
  }

  /** The read fails exactly when some line has fewer than two tokens; otherwise each
      omim's list is the second tokens of its lines, in file order, duplicates kept. */
  lemma MimToProtLists(lines: seq<string>, o: string)
    ensures MimToProt(lines).Err? <==> exists k :: 0 <= k < |lines| && |SplitWs(Strip(lines[k]))| < 2
    ensures MimToProt(lines).Ok? ==> GetList(MimToProt(lines).value, o) == RowsFor(MimToProtRows(lines), o)
  {
    AppendedFails(MimToProtRows(lines));
    if MimToProt(lines).Ok? {
      AppendedList(MimToProtRows(lines), o);
    }
  }

  /** `readMimToProt`, over the lines of the file. */
  method ReadMimToProt(lines: seq<string>) returns (r: Result<map<string, seq<string>>>)
    ensures r == MimToProt(lines)
  {
    ghost var es := MimToProtRows(lines);
    var values: map<string, seq<string>> := map[];
    for k := 0 to |lines|
      invariant Appended(es[..k]) == Ok(values)
    {
      var sl := SplitWs(Strip(lines[k]));
      if |sl| < 2 {
        AppendedStops(es, k);
        return Err(IndexError);
      }
      AppendedStep(es, k, values);
      values := values[sl[0] := GetList(values, sl[0]) + [sl[1]]];
    }
    assert es[..|lines|] == es;
    return Ok(values);
  }

  // ----- readExclusionList -----

  /** The lines stripped and upper-cased, in file order. */
  function Cleaned(lines: seq<string>): (r: seq<string>)
    ensures |r| == |lines|
    ensures forall k :: 0 <= k < |lines| ==> r[k] == Upper(Strip(lines[k]))
  {
    seq(|lines|, k requires 0 <= k < |lines| => Upper(Strip(lines[k])))
  }

  /** The set `readExclusionList` returns. */
  function Exclusion(lines: seq<string>): set<string> {
    Elems(Cleaned(lines))
  }

  /** An entry is exactly a line stripped and upper-cased. */
  lemma ExclusionMembers(lines: seq<string>, x: string)
    ensures x in Exclusion(lines) <==> exists k :: 0 <= k < |lines| && x == Upper(Strip(lines[k]))
  {
    var xs := Cleaned(lines);
    if x in Exclusion(lines) {
      var k :| 0 <= k < |xs| && xs[k] == x;
    }
  }

  /** So every entry is in upper case and has no surrounding whitespace. */
  lemma ExclusionEntries(lines: seq<string>, x: string)
    requires x in Exclusion(lines)
    ensures UpperCase(x) && Strip(x) == x
  {
    ExclusionMembers(lines, x);
    var k :| 0 <= k < |lines| && x == Upper(Strip(lines[k]));
    UpperIsUpperCase(Strip(lines[k]));
    StripIdempotent(lines[k]);
    UpperKeepsStripped(Strip(lines[k]));
  }

  /** `readExclusionList`, over the lines of the file. */
  method ReadExclusionList(lines: seq<string>) returns (values: set<string>)
    ensures values == Exclusion(lines)
  {
    values := {};
    ghost var xs := Cleaned(lines);
    for k := 0 to |lines|
      invariant values == Elems(xs[..k])
    {
      ElemsTake(xs, k);
      values := values + {Upper(Strip(lines[k]))};
    }
    assert xs[..|lines|] == xs;
  }

  /** Upper-casing a stripped string leaves it stripped. */
  lemma UpperKeepsStripped(s: string)
    requires Strip(s) == s
    ensures Strip(Upper(s)) == Upper(s)
  {
    if |s| > 0 {
      UpperNotSpace(s, 0);
      UpperNotSpace(s, |s| - 1);
    }
    StripOfEnds(Upper(s));
  }

  lemma UpperNotSpace(s: string, i: nat)
    requires i < |s| && !IsSpace(s[i])
    ensures !IsSpace(Upper(s)[i])
  {
    var c := Upper(s)[i];
    if 'a' <= s[i] <= 'z' {
      assert 'A' as int <= c as int <= 'Z' as int;
    } else {
      assert c == s[i];
    }
  }

  // ----- produceBenchmark -----

  /** The union of the families of a list of proteins; unknown proteins add none. */
  function Families(pfamscan: map<string, set<string>>, proteins: seq<string>): set<string> {
    if |proteins| == 0 then {}
    else Families(pfamscan, proteins[..|proteins| - 1]) + GetSet(pfamscan, proteins[|proteins| - 1])
  }

  lemma {:induction false} FamiliesMembers(pfamscan: map<string, set<string>>, proteins: seq<string>, f: string)
    ensures f in Families(pfamscan, proteins) <==> exists p :: p in proteins && f in GetSet(pfamscan, p)
  {
    if |proteins| > 0 {
      var init := proteins[..|proteins| - 1];
      FamiliesMembers(pfamscan, init, f);
      assert proteins == init + [proteins[|proteins| - 1]];
    }
  }

  /** The two diseases share a family that is not excluded. */
  predicate Related(pfamscan: map<string, set<string>>, mimtoprot: map<string, seq<string>>, exclusion: set<string>, o1: string, o2: string) {
    (Families(pfamscan, GetList(mimtoprot, o1)) * Families(pfamscan, GetList(mimtoprot, o2))) - exclusion != {}
  }

  /** The decision does not depend on the order of the pair. */
  lemma RelatedSymmetric(pfamscan: map<string, set<string>>, mimtoprot: map<string, seq<string>>, exclusion: set<string>, o1: string, o2: string)
    ensures Related(pfamscan, mimtoprot, exclusion, o1, o2) == Related(pfamscan, mimtoprot, exclusion, o2, o1)
  {
    var f1, f2 := Families(pfamscan, GetList(mimtoprot, o1)), Families(pfamscan, GetList(mimtoprot, o2));
    assert f1 * f2 == f2 * f1;
  }

  /** Related diseases have proteins with a shared family outside the exclusion list. */
  lemma RelatedWitness(pfamscan: map<string, set<string>>, mimtoprot: map<string, seq<string>>, exclusion: set<string>, o1: string, o2: string)
    ensures Related(pfamscan, mimtoprot, exclusion, o1, o2) <==> exists p1, p2, f ::
      p1 in GetList(mimtoprot, o1) && p2 in GetList(mimtoprot, o2) && f in GetSet(pfamscan, p1) && f in GetSet(pfamscan, p2) && f !in exclusion
  {
    var ps1, ps2 := GetList(mimtoprot, o1), GetList(mimtoprot, o2);
    if Related(pfamscan, mimtoprot, exclusion, o1, o2) {
      var f :| f in (Families(pfamscan, ps1) * Families(pfamscan, ps2)) - exclusion;
      FamiliesMembers(pfamscan, ps1, f);
      FamiliesMembers(pfamscan, ps2, f);
    }
    if exists p1, p2, f :: p1 in ps1 && p2 in ps2 && f in GetSet(pfamscan, p1) && f in GetSet(pfamscan, p2) && f !in exclusion {
      var p1, p2, f :| p1 in ps1 && p2 in ps2 && f in GetSet(pfamscan, p1) && f in GetSet(pfamscan, p2) && f !in exclusion;
      FamiliesMembers(pfamscan, ps1, f);
      FamiliesMembers(pfamscan, ps2, f);
      assert f in (Families(pfamscan, ps1) * Families(pfamscan, ps2)) - exclusion;
    }
  }

  /** The records written for `pairs`: each pair the rule accepts, as it is. */
  function Benchmark(pfamscan: map<string, set<string>>, mimtoprot: map<string, seq<string>>, exclusion: set<string>, pairs: seq<(string, string)>): (r: seq<(string, string)>)
    ensures |r| <= |pairs|
  {
    Select(pairs, (p: (string, string)) => Related(pfamscan, mimtoprot, exclusion, p.0, p.1), (p: (string, string)) => p)
  }

  /** Over the sorted omims, `(a, b)` is written exactly when `a < b` are two related
      omims of the table; no pair is written twice or in both orders. */
  lemma BenchmarkMembers(pfamscan: map<string, set<string>>, mimtoprot: map<string, seq<string>>, exclusion: set<string>, a: string, b: string)
    ensures var out := Benchmark(pfamscan, mimtoprot, exclusion, Pairs(SortedKeys(mimtoprot.Keys)));
      (a, b) in out <==> a in mimtoprot && b in mimtoprot && StrLess(a, b) && Related(pfamscan, mimtoprot, exclusion, a, b)
  {
    var keys := SortedKeys(mimtoprot.Keys);
    var pairs := Pairs(keys);
    var keep := (p: (string, string)) => Related(pfamscan, mimtoprot, exclusion, p.0, p.1);
    var f := (p: (string, string)) => p;
    assert Benchmark(pfamscan, mimtoprot, exclusion, pairs) == Select(pairs, keep, f);
    SelectMembers(pairs, keep, f, (a, b));
    StrLessOrder();
    if (a, b) in pairs {
      PairsIncreasing(StrLess, keys, a, b);
      PairsMembers(keys, a, b);
    }
    if a in mimtoprot && b in mimtoprot && StrLess(a, b) {
      SortedPairs(StrLess, keys, a, b);
    }
    if (a, b) in Benchmark(pfamscan, mimtoprot, exclusion, pairs) {
      var k :| 0 <= k < |pairs| && keep(pairs[k]) && (a, b) == f(pairs[k]);
      assert pairs[k] in pairs;
    }
    if a in mimtoprot && b in mimtoprot && StrLess(a, b) && Related(pfamscan, mimtoprot, exclusion, a, b) {
      var k :| 0 <= k < |pairs| && pairs[k] == (a, b);
      assert keep(pairs[k]) && (a, b) == f(pairs[k]);
    }
  }

  /** The loop that grows a disease's family set with `update`. */
  method CollectFamilies(pfamscan: map<string, set<string>>, proteins: seq<string>) returns (families: set<string>)
    ensures families == Families(pfamscan, proteins)
  {
    families := {};
    for k := 0 to |proteins|
      invariant families == Families(pfamscan, proteins[..k])
    {
      assert proteins[..k + 1][..k] == proteins[..k];
      families := families + GetSet(pfamscan, proteins[k]);
    }
    assert proteins[..|proteins|] == proteins;
  }

  /** `produceBenchmark`: every pair of the sorted omims, written when related. */
  method ProduceBenchmark(pfamscan: map<string, set<string>>, mimtoprot: map<string, seq<string>>, exclusion: set<string>)
    returns (out: seq<(string, string)>)
    ensures out == Benchmark(pfamscan, mimtoprot, exclusion, Pairs(SortedKeys(mimtoprot.Keys)))
  {
    var keys := Sorted(mimtoprot.Keys);
    var allPairs := Pairs(keys);
    out := [];
    for k := 0 to |allPairs|
      invariant out == Benchmark(pfamscan, mimtoprot, exclusion, allPairs[..k])
    {
      assert allPairs[..k + 1][..k] == allPairs[..k];
      var (omim1, omim2) := allPairs[k];
      var families1 := CollectFamilies(pfamscan, GetList(mimtoprot, omim1));
      var families2 := CollectFamilies(pfamscan, GetList(mimtoprot, omim2));
      if (families1 * families2) - exclusion != {} {
        out := out + [(omim1, omim2)];
      }
    }
    assert allPairs[..|allPairs|] == allPairs;
  }

  /** No record is written in both orders, and there are at most `n(n-1)/2` for `n`
      omims. */
  lemma BenchmarkOnce(pfamscan: map<string, set<string>>, mimtoprot: map<string, seq<string>>, exclusion: set<string>, a: string, b: string)
    ensures var out := Benchmark(pfamscan, mimtoprot, exclusion, Pairs(SortedKeys(mimtoprot.Keys)));
      (a, b) in out ==> (b, a) !in out
    ensures var n := |mimtoprot.Keys|;
      2 * |Benchmark(pfamscan, mimtoprot, exclusion, Pairs(SortedKeys(mimtoprot.Keys)))| <= n * (n - 1)
  {
    BenchmarkAsymmetric(pfamscan, mimtoprot, exclusion, a, b);
    BenchmarkBound(pfamscan, mimtoprot, exclusion);
  }

  lemma BenchmarkAsymmetric(pfamscan: map<string, set<string>>, mimtoprot: map<string, seq<string>>, exclusion: set<string>, a: string, b: string)
    ensures var out := Benchmark(pfamscan, mimtoprot, exclusion, Pairs(SortedKeys(mimtoprot.Keys)));
      (a, b) in out ==> (b, a) !in out
  {
    BenchmarkMembers(pfamscan, mimtoprot, exclusion, a, b);
    BenchmarkMembers(pfamscan, mimtoprot, exclusion, b, a);
    if StrLess(a, b) && StrLess(b, a) {
      StrLessTransitive(a, b, a);
      StrLessIrreflexive(a);
    }
  }

  lemma BenchmarkBound(pfamscan: map<string, set<string>>, mimtoprot: map<string, seq<string>>, exclusion: set<string>)
    ensures var n := |mimtoprot.Keys|;
      2 * |Benchmark(pfamscan, mimtoprot, exclusion, Pairs(SortedKeys(mimtoprot.Keys)))| <= n * (n - 1)
  {
    var keys := SortedKeys(mimtoprot.Keys);
    var pairs := Pairs(keys);
    assert |keys| == |mimtoprot.Keys| by {
      DistinctKeys(keys);
      DistinctCard(keys, mimtoprot.Keys);
    }
    assert 2 * |pairs| == |keys| * (|keys| - 1) by {
      PairsLength(keys);
    }
    assert |Benchmark(pfamscan, mimtoprot, exclusion, pairs)| <= |pairs|;
  }
}
