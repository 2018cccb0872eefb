/** `filterBenchmarks.py`: drops from a benchmark table the disease pairs that share a
    protein and, with a Pfam table, the pairs whose proteins are not valid. Files are
    given as their lines, without line terminators. */
module FilterBenchmarks {
  import opened Wrappers
  import opened Strings
  import opened Tables

  // ----- readUniprotPfamMapping -----

  /** A line of the pfamscan table adds its protein unless it is a comment or its family
      is invalid. The seventh token is read before the protein id. */
  function MappingRow(line: string, invalidPfams: set<string>): (r: Result<seq<string>>)
    ensures r.Err? ==> r.error == IndexError
    ensures r.Ok? ==> |r.value| <= 1
  {
    if |line| > 0 && line[0] == '#' then Ok([])
    else
      var sl := SplitWs(Strip(line));
      if |sl| < 7 then Err(IndexError)
      else if Upper(Strip(sl[6])) in invalidPfams then Ok([])
      else
        var ids := Split(sl[0], '|');
        if |ids| < 2 then Err(IndexError) else Ok([ids[1]])
  }

  /** A line adds protein `x` exactly when it is no comment, has seven tokens, a valid
      upper-cased seventh token, and `x` as the second `|` field of its first token. */
  lemma MappingRowMeaning(line: string, invalidPfams: set<string>, x: string)
    ensures var sl := SplitWs(Strip(line));
      MappingRow(line, invalidPfams) == Ok([x]) <==>
        && !(|line| > 0 && line[0] == '#') && |sl| >= 7 && Upper(sl[6]) !in invalidPfams
        && |Split(sl[0], '|')| >= 2 && Split(sl[0], '|')[1] == x
  {
    var sl := SplitWs(Strip(line));
    if |sl| >= 7 {
      assert Strip(sl[6]) == sl[6];
    }
  }

  function MappingRows(lines: seq<string>, invalidPfams: set<string>): seq<Result<seq<string>>> {
    seq(|lines|, k requires 0 <= k < |lines| => MappingRow(lines[k], invalidPfams))
  }

  /** The set `readUniprotPfamMapping` returns. */
  function UniprotPfamMapping(lines: seq<string>, invalidPfams: set<string>): Result<set<string>> {
    Collected(MappingRows(lines, invalidPfams))
  }

  /** A short line fails the read with an IndexError; otherwise the proteins are exactly
      those some line adds. */
  lemma UniprotPfamMappingMeaning(lines: seq<string>, invalidPfams: set<string>, x: string)
    ensures var r := UniprotPfamMapping(lines, invalidPfams);
      && (r.Err? <==> exists k :: 0 <= k < |lines| && MappingRow(lines[k], invalidPfams).Err?)
      && (r.Err? ==> r.error == IndexError)
      && (r.Ok? ==> (x in r.value <==> exists k :: 0 <= k < |lines| && MappingRow(lines[k], invalidPfams) == Ok([x])))
  {
    var es := MappingRows(lines, invalidPfams);
    CollectedFails(es);
    assert forall k :: 0 <= k < |lines| ==> es[k] == MappingRow(lines[k], invalidPfams);
    if Collected(es).Ok? {
      CollectedMembers(es, x);
      if x in Collected(es).value {
        var k :| 0 <= k < |es| && es[k].Ok? && x in es[k].value;
        assert es[k] == Ok([x]);
      }
    }
  }

  /** One line of `readUniprotPfamMapping`'s loop. */
  method ReadMappingRow(line: string, invalidPfams: set<string>) returns (r: Result<seq<string>>)
    ensures r == MappingRow(line, invalidPfams)
  {
    if |line| > 0 && line[0] == '#' {
      return Ok([]);
    }
    var sl := SplitWs(Strip(line));
    if |sl| < 7 {
      return Err(IndexError);
    }
    if Upper(Strip(sl[6])) in invalidPfams {
      return Ok([]);
    }
    var ids := Split(sl[0], '|');
    if |ids| < 2 {
      return Err(IndexError);
    }
    return Ok([ids[1]]);
  }

  /** `readUniprotPfamMapping`, over the lines of the file. */
  method ReadUniprotPfamMapping(lines: seq<string>, invalidPfams: set<string>) returns (r: Result<set<string>>)
    ensures r == UniprotPfamMapping(lines, invalidPfams)
  {
    var values := {};
    ghost var es := MappingRows(lines, invalidPfams);
    for k := 0 to |lines|
      invariant Collected(es[..k]) == Ok(values)
    {
      var row := ReadMappingRow(lines[k], invalidPfams);
      assert es[k] == row;
      if row.Err? {
        CollectedStops(es, k);
        return Err(row.error);
      }
      CollectedStep(es, k, values);
      ghost var before := values;
      if |row.value| == 1 {
        assert row.value == [row.value[0]];
        values := values + {row.value[0]};
      }
      assert values == before + Elems(row.value);
    }
    assert es[..|lines|] == es;
    return Ok(values);
  }

  // ----- readInvalidPfam -----

  /** The lines stripped, in file order. */
  function StrippedLines(lines: seq<string>): (r: seq<string>)
    ensures |r| == |lines|
    ensures forall k :: 0 <= k < |lines| ==> r[k] == Strip(lines[k])
  {
    seq(|lines|, k requires 0 <= k < |lines| => Strip(lines[k]))
  }

  /** The set `readInvalidPfam` returns. */
  function InvalidPfam(lines: seq<string>): set<string> {
    Elems(StrippedLines(lines))
  }

  /** An entry is exactly a stripped line: stripped, but not upper-cased. */
  lemma InvalidPfamMembers(lines: seq<string>, x: string)
    ensures x in InvalidPfam(lines) <==> exists k :: 0 <= k < |lines| && x == Strip(lines[k])
  {
    var xs := StrippedLines(lines);
    if x in InvalidPfam(lines) {
      var k :| 0 <= k < |xs| && xs[k] == x;
    }
  }

  /** `readInvalidPfam`, over the lines of the file. */
  method ReadInvalidPfam(lines: seq<string>) returns (values: set<string>)
    ensures values == InvalidPfam(lines)
  {
    values := {};
    ghost var xs := StrippedLines(lines);
    for k := 0 to |lines|
      invariant values == Elems(xs[..k])
    {
      ElemsTake(xs, k);
      values := values + {Strip(lines[k])};
    }
    assert xs[..|lines|] == xs;
  }

  // ----- readOmimToEntity -----

  /** A line of the omim table: exactly two tokens, the omim and one of its entities. */
  function EntityRow(line: string): (r: Result<Option<(string, string)>>)
    ensures r.Err? <==> |SplitWs(Strip(line))| != 2
    ensures r.Err? ==> r.error == ValueError
    ensures r.Ok? ==> r == Ok(Some((SplitWs(Strip(line))[0], SplitWs(Strip(line))[1])))
  {
    var sl := SplitWs(Strip(line));
    if |sl| != 2 then Err(ValueError) else Ok(Some((sl[0], sl[1])))
  }

  function EntityRows(lines: seq<string>): seq<Result<Option<(string, string)>>> {
    seq(|lines|, k requires 0 <= k < |lines| => EntityRow(lines[k]))
  }

  /** The omim-to-entities table `readOmimToEntity` returns. */
  function OmimToEntity(lines: seq<string>): Result<map<string, set<string>>> {
    Grouped(EntityRows(lines))
  }

  /** A line without exactly two tokens fails the read with a ValueError; otherwise an
      omim is mapped to entity `e` exactly when some line pairs the two. */
  lemma OmimToEntityMeaning(lines: seq<string>, o: string, e: string)
    ensures var r := OmimToEntity(lines);
      && (r.Err? <==> exists k :: 0 <= k < |lines| && |SplitWs(Strip(lines[k]))| != 2)
      && (r.Err? ==> r.error == ValueError)
      && (r.Ok? ==> (e in GetSet(r.value, o) <==> exists k :: 0 <= k < |lines| && EntityRow(lines[k]) == Ok(Some((o, e)))))
  {
    var es := EntityRows(lines);
    GroupedFails(es);
    assert forall k :: 0 <= k < |lines| ==> es[k] == EntityRow(lines[k]);
    if Grouped(es).Ok? {
      GroupedMembers(es, o, e);
    }
  }

  /** `readOmimToEntity`, over the lines of the file. */
  method ReadOmimToEntity(lines: seq<string>) returns (r: Result<map<string, set<string>>>)
    ensures r == OmimToEntity(lines)
  {
    var values := map[];
    ghost var es := EntityRows(lines);
    for k := 0 to |lines|
      invariant Grouped(es[..k]) == Ok(values)
    {
      var sl := SplitWs(Strip(lines[k]));
      if |sl| != 2 {
        GroupedStops(es, k);
        return Err(ValueError);
      }
      var (omim, entity) := (sl[0], sl[1]);
      GroupedStep(es, k, values);
      values := values[omim := GetSet(values, omim) + {entity}];
    }
    assert es[..|lines|] == es;
    return Ok(values);
  }

  // ----- filterFile -----

  /** The shared-protein test with no Pfam table: the two diseases share no protein, an
      unknown disease having none. */
  predicate ShareNone(omimUniprot: map<string, set<string>>, omim1: string, omim2: string) {
    GetSet(omimUniprot, omim1) * GetSet(omimUniprot, omim2) == {}
  }

  /** The test with a Pfam table: both diseases have a valid protein and they share none. */
  predicate BothValid(omimUniprot: map<string, set<string>>, validUniprot: set<string>, omim1: string, omim2: string) {
    && GetSet(omimUniprot, omim1) * validUniprot != {}
    && GetSet(omimUniprot, omim2) * validUniprot != {}
    && ShareNone(omimUniprot, omim1, omim2)
  }

  /** Whether the pair's line is copied. */
  predicate Kept(omimUniprot: map<string, set<string>>, validUniprot: set<string>, omim1: string, omim2: string) {
    if validUniprot == {} then ShareNone(omimUniprot, omim1, omim2)
    else BothValid(omimUniprot, validUniprot, omim1, omim2)
  }

  /** The decision does not depend on the order of the pair. */
  lemma KeptSymmetric(omimUniprot: map<string, set<string>>, validUniprot: set<string>, omim1: string, omim2: string)
    ensures Kept(omimUniprot, validUniprot, omim1, omim2) == Kept(omimUniprot, validUniprot, omim2, omim1)
  {
    assert GetSet(omimUniprot, omim1) * GetSet(omimUniprot, omim2) == GetSet(omimUniprot, omim2) * GetSet(omimUniprot, omim1);
  }

  /** `writeLine`'s text, without its line terminator. */
  function Line(omim1: string, omim2: string, disim: string, molsim: string): string {
    Join([omim1, omim2, disim, molsim], "\t")
  }

  /** A line of the table to filter as the code is written: the four fields, copied when
      the shared-protein test passes; in the Pfam branch `writeLine` is called without
      its file, a TypeError whenever the test passes. */
  function FilterRowAsWritten(line: string, omimUniprot: map<string, set<string>>, validUniprot: set<string>): Result<Option<string>> {
    var sl := SplitWs(Strip(line));
    if |sl| != 4 then Err(ValueError)
    else if validUniprot == {} then
      if ShareNone(omimUniprot, sl[0], sl[1]) then Ok(Some(Line(sl[0], sl[1], sl[2], sl[3]))) else Ok(None)
    else if BothValid(omimUniprot, validUniprot, sl[0], sl[1]) then Err(TypeError)
    else Ok(None)
  }

  /** A line of the table to filter, with the Pfam branch writing its line to the output
      file as the other branch does. */
  function FilterRow(line: string, omimUniprot: map<string, set<string>>, validUniprot: set<string>): (r: Result<Option<string>>)
    ensures r.Err? <==> |SplitWs(Strip(line))| != 4
    ensures r.Err? ==> r.error == ValueError
    ensures r.Ok? && r.value.Some? <==> r.Ok? && Kept(omimUniprot, validUniprot, SplitWs(Strip(line))[0], SplitWs(Strip(line))[1])
  {
    var sl := SplitWs(Strip(line));
    if |sl| != 4 then Err(ValueError)
    else if Kept(omimUniprot, validUniprot, sl[0], sl[1]) then Ok(Some(Line(sl[0], sl[1], sl[2], sl[3])))
    else Ok(None)
  }

  /** A copied line reproduces the four input fields unchanged. */
  lemma FilterRowCopies(line: string, omimUniprot: map<string, set<string>>, validUniprot: set<string>)
    requires FilterRow(line, omimUniprot, validUniprot).Ok? && FilterRow(line, omimUniprot, validUniprot).value.Some?
    ensures SplitWs(FilterRow(line, omimUniprot, validUniprot).value.value) == SplitWs(Strip(line))
  {
    var sl := SplitWs(Strip(line));
    assert sl == [sl[0], sl[1], sl[2], sl[3]];
    SplitWsJoin(sl);
  }

  /** The two differ exactly in the Pfam branch, on the lines the test keeps: there the
      code as written raises a TypeError where the line should be copied. */
  lemma FilterRowDiscrepancy(line: string, omimUniprot: map<string, set<string>>, validUniprot: set<string>)
    ensures var sl := SplitWs(Strip(line));
      FilterRowAsWritten(line, omimUniprot, validUniprot) != FilterRow(line, omimUniprot, validUniprot) <==>
        |sl| == 4 && validUniprot != {} && BothValid(omimUniprot, validUniprot, sl[0], sl[1])
    ensures FilterRowAsWritten(line, omimUniprot, validUniprot) != FilterRow(line, omimUniprot, validUniprot) ==>
      FilterRowAsWritten(line, omimUniprot, validUniprot) == Err(TypeError) && FilterRow(line, omimUniprot, validUniprot).Ok?
  {
  }

  function FilterRowsAsWritten(lines: seq<string>, omimUniprot: map<string, set<string>>, validUniprot: set<string>): seq<Result<Option<string>>> {
    seq(|lines|, k requires 0 <= k < |lines| => FilterRowAsWritten(lines[k], omimUniprot, validUniprot))
  }

  function FilterRows(lines: seq<string>, omimUniprot: map<string, set<string>>, validUniprot: set<string>): seq<Result<Option<string>>> {
    seq(|lines|, k requires 0 <= k < |lines| => FilterRow(lines[k], omimUniprot, validUniprot))
  }

  /** What `filterFile` writes, as written. */
  function FilteredAsWritten(lines: seq<string>, omimUniprot: map<string, set<string>>, validUniprot: set<string>): Result<seq<string>> {
    Emitted(FilterRowsAsWritten(lines, omimUniprot, validUniprot))
  }

  /** What `filterFile` writes once the Pfam branch passes its file to `writeLine`. */
  function Filtered(lines: seq<string>, omimUniprot: map<string, set<string>>, validUniprot: set<string>): Result<seq<string>> {
    Emitted(FilterRows(lines, omimUniprot, validUniprot))
  }

  /** As written, the Pfam branch never writes a line: it ends in an error or with an
      empty output. */
  lemma FilteredAsWrittenPfamWritesNothing(lines: seq<string>, omimUniprot: map<string, set<string>>, validUniprot: set<string>)
    requires validUniprot != {}
    ensures FilteredAsWritten(lines, omimUniprot, validUniprot).Ok? ==> FilteredAsWritten(lines, omimUniprot, validUniprot).value == []
  {
    var es := FilterRowsAsWritten(lines, omimUniprot, validUniprot);
    forall k | 0 <= k < |es| ensures !(es[k].Ok? && es[k].value.Some?) {
      assert es[k] == FilterRowAsWritten(lines[k], omimUniprot, validUniprot);
    }
    if Emitted(es).Ok? && |Emitted(es).value| > 0 {
      EmittedMembers(es, Emitted(es).value[0]);
    }
  }

  /** A line that is not four tokens fails the filter with a ValueError; otherwise the
      output holds exactly the copies of the kept lines, each the line's four fields. */
  lemma FilteredMeaning(lines: seq<string>, omimUniprot: map<string, set<string>>, validUniprot: set<string>, out: string)
    ensures var r := Filtered(lines, omimUniprot, validUniprot);
      && (r.Err? <==> exists k :: 0 <= k < |lines| && |SplitWs(Strip(lines[k]))| != 4)
      && (r.Err? ==> r.error == ValueError)
      && (r.Ok? ==> (out in r.value <==> exists k :: 0 <= k < |lines| && FilterRow(lines[k], omimUniprot, validUniprot) == Ok(Some(out))))
      && (r.Ok? && out in r.value ==> exists k :: 0 <= k < |lines| && SplitWs(out) == SplitWs(Strip(lines[k]))
                                                && Kept(omimUniprot, validUniprot, SplitWs(out)[0], SplitWs(out)[1]))
  {
    var es := FilterRows(lines, omimUniprot, validUniprot);
    EmittedFails(es);
    assert forall k :: 0 <= k < |lines| ==> es[k] == FilterRow(lines[k], omimUniprot, validUniprot);
    if Emitted(es).Ok? {
      EmittedMembers(es, out);
      if out in Emitted(es).value {
        var k :| 0 <= k < |lines| && es[k] == Ok(Some(out));
        FilterRowCopies(lines[k], omimUniprot, validUniprot);
      }
    }
  }

  /** One line of `filterFile`'s loop. */
  method FilterLine(line: string, omimUniprot: map<string, set<string>>, validUniprot: set<string>) returns (r: Result<Option<string>>)
    ensures r == FilterRow(line, omimUniprot, validUniprot)
  {
    var sl := SplitWs(Strip(line));
    if |sl| != 4 {
      return Err(ValueError);
    }
    var (omim1, omim2, disim, molsim) := (sl[0], sl[1], sl[2], sl[3]);
    if validUniprot == {} {
      if GetSet(omimUniprot, omim1) * GetSet(omimUniprot, omim2) == {} {
        return Ok(Some(Line(omim1, omim2, disim, molsim)));
      }
    } else {
      if GetSet(omimUniprot, omim1) * validUniprot != {} && GetSet(omimUniprot, omim2) * validUniprot != {}
         && GetSet(omimUniprot, omim1) * GetSet(omimUniprot, omim2) == {} {
        return Ok(Some(Line(omim1, omim2, disim, molsim)));
      }
    }
    return Ok(None);
  }

  /** `filterFile`, producing the output lines instead of writing them. */
  method FilterFile(lines: seq<string>, omimUniprot: map<string, set<string>>, validUniprot: set<string>) returns (r: Result<seq<string>>)
    ensures r == Filtered(lines, omimUniprot, validUniprot)
  {
    var outfile := [];
    ghost var es := FilterRows(lines, omimUniprot, validUniprot);
    for k := 0 to |lines|
      invariant Emitted(es[..k]) == Ok(outfile)
    {
      var row := FilterLine(lines[k], omimUniprot, validUniprot);
      assert es[k] == row;
      if row.Err? {
        EmittedStops(es, k);
        return Err(row.error);
      }
      EmittedStep(es, k, outfile);
      if row.value.Some? {
        outfile := outfile + [row.value.value];
      }
    }
    assert es[..|lines|] == es;
    return Ok(outfile);
  }

  // ----- the script -----

  /** The script as written: with a Pfam table and an invalid-family list it reads both,
      then filters with `valid_uniprots_pfam`, which is never assigned and stays empty. */
  function FilteringAsWritten(toFilter: seq<string>, omimUniprot: seq<string>, pfam: Option<(seq<string>, seq<string>)>): Result<seq<string>> {
    var mapping :- OmimToEntity(omimUniprot);
    var validUniprotsPfam: set<string> := {};
    if pfam.Some? then
      var invalidPfam := InvalidPfam(pfam.value.1);
      var validUniprots :- UniprotPfamMapping(pfam.value.0, invalidPfam);
      FilteredAsWritten(toFilter, mapping, validUniprotsPfam)
    else FilteredAsWritten(toFilter, mapping, validUniprotsPfam)
  }

  /** As written, a Pfam table that reads without error never changes the output. */
  lemma FilteringAsWrittenIgnoresPfam(toFilter: seq<string>, omimUniprot: seq<string>, pfamscan: seq<string>, invalid: seq<string>)
    requires UniprotPfamMapping(pfamscan, InvalidPfam(invalid)).Ok?
    ensures FilteringAsWritten(toFilter, omimUniprot, Some((pfamscan, invalid))) == FilteringAsWritten(toFilter, omimUniprot, None)
  {
  }

  /** The script filtering with the proteins the Pfam table found valid. */
  function Filtering(toFilter: seq<string>, omimUniprot: seq<string>, pfam: Option<(seq<string>, seq<string>)>): Result<seq<string>> {
    var mapping :- OmimToEntity(omimUniprot);
    if pfam.Some? then
      var invalidPfam := InvalidPfam(pfam.value.1);
      var validUniprots :- UniprotPfamMapping(pfam.value.0, invalidPfam);
      Filtered(toFilter, mapping, validUniprots)
    else Filtered(toFilter, mapping, {})
  }

  /** With a Pfam table that leaves some protein valid, every line written pairs two
      diseases that each have a valid protein and share none. */
  lemma FilteringWithPfam(toFilter: seq<string>, omimUniprot: seq<string>, pfamscan: seq<string>, invalid: seq<string>, out: string)
    requires Filtering(toFilter, omimUniprot, Some((pfamscan, invalid))).Ok?
    requires UniprotPfamMapping(pfamscan, InvalidPfam(invalid)).value != {}
    requires out in Filtering(toFilter, omimUniprot, Some((pfamscan, invalid))).value
    ensures var valid := UniprotPfamMapping(pfamscan, InvalidPfam(invalid)).value;
      |SplitWs(out)| == 4 && BothValid(OmimToEntity(omimUniprot).value, valid, SplitWs(out)[0], SplitWs(out)[1])
  {
    var mapping := OmimToEntity(omimUniprot).value;
    var valid := UniprotPfamMapping(pfamscan, InvalidPfam(invalid)).value;
    FilteredMeaning(toFilter, mapping, valid, out);
  }

  /** The script over the lines of its input files, filtering with the valid proteins. */
  method Filter(toFilter: seq<string>, omimUniprot: seq<string>, pfam: Option<(seq<string>, seq<string>)>) returns (r: Result<seq<string>>)
    ensures r == Filtering(toFilter, omimUniprot, pfam)
  {
    var omimUniprotMapping :- ReadOmimToEntity(omimUniprot);
    var validUniprots := {};
    if pfam.Some? {
      var invalidPfam := ReadInvalidPfam(pfam.value.1);
      validUniprots :- ReadUniprotPfamMapping(pfam.value.0, invalidPfam);
    }
    r := FilterFile(toFilter, omimUniprotMapping, validUniprots);
  }
}
