/** `MIM2gene.py`: a benchmark of disease pairs from UniProt's `mimtosp` table and a
    protein-protein interaction network. Two diseases are paired when they share a
    protein, or when a protein of one interacts with a protein of the other. Files are
    given as their lines, without terminators; output records are `(left, right)` pairs,
    each written as `left \t right \t 1`. */
module Mim2Gene {
  import opened Wrappers
  import opened Strings
  import opened Combinations
  import opened Tables

  // ----- parse_uniprotToGenename -----

  /** `[i.strip() for i in xs]`. */
  function StripAll(xs: seq<string>): (r: seq<string>)
    ensures |r| == |xs|
    ensures forall k :: 0 <= k < |xs| ==> r[k] == Strip(xs[k])
  {
    seq(|xs|, k requires 0 <= k < |xs| => Strip(xs[k]))
  }

  /** One row of the gene-name table: `None` for a row without a UniProt id, else the id
      and the names appended for it (the symbol, then the comma-separated synonyms); an
      IndexError when the row has fewer than three tab-separated columns. */
  function GenenameRow(line: string): (r: Result<Option<(string, seq<string>)>>)
    ensures r.Err? <==> |Split(line, '\t')| < 3
    ensures r.Err? ==> r.error == IndexError
    ensures r.Ok? ==> (r.value.None? <==> Strip(Split(line, '\t')[2]) == "")
    ensures r.Ok? && r.value.Some? ==> r.value.value.0 == Strip(Split(line, '\t')[2])
    ensures r.Ok? && r.value.Some? ==> (&& |r.value.value.1| > 0 && r.value.value.1[0] == Strip(Split(line, '\t')[0])
      && r.value.value.1[1..] == if |Split(line, '\t')[1]| > 0 then StripAll(Split(Split(line, '\t')[1], ',')) else [])
  {
    var pieces := Split(line, '\t');
    if |pieces| < 3 then Err(IndexError)
    else
      var symbol := Strip(pieces[0]);
      var synonyms := pieces[1];
      var uniprot := Strip(pieces[2]);
      if uniprot == "" then Ok(None)
      else Ok(Some((uniprot, [symbol] + if |synonyms| > 0 then StripAll(Split(synonyms, ',')) else [])))
  }

  /** The rows of the gene-name file, each read on its own. */
  function GenenameRows(lines: seq<string>): (r: seq<Result<Option<(string, seq<string>)>>>)
    ensures |r| == |lines|
    ensures forall k :: 0 <= k < |lines| ==> r[k] == GenenameRow(lines[k])
  {
    seq(|lines|, k requires 0 <= k < |lines| => GenenameRow(lines[k]))
  }

  /** The table `parse_uniprotToGenename` returns, or its IndexError. */
  function Genenames(lines: seq<string>): (r: Result<map<string, seq<string>>>)
    ensures r.Err? ==> r.error == IndexError
  {
    Appended(GenenameRows(lines))
  }

  /** The read fails exactly when some row has fewer than three columns. */
  lemma GenenamesFails(lines: seq<string>)
    ensures Genenames(lines).Err? <==> exists k :: 0 <= k < |lines| && |Split(lines[k], '\t')| < 3
  {
    AppendedFails(GenenameRows(lines));
  }

  /** Otherwise the ids mapped are exactly those of the rows read, none of them empty,
      and each maps to a non-empty list. */
  lemma GenenamesKeys(lines: seq<string>, u: string)
    requires Genenames(lines).Ok?
    ensures u in Genenames(lines).value <==> exists k :: 0 <= k < |lines| && Keyed(GenenameRow(lines[k]), u)
    ensures u in Genenames(lines).value ==> u != "" && |Genenames(lines).value[u]| > 0
  {
    var es := GenenameRows(lines);
    AppendedKeys(es, u);
    if u in Genenames(lines).value {
      var k :| 0 <= k < |es| && Keyed(es[k], u);
      assert es[k] == GenenameRow(lines[k]);
    }
  }

  /** The body of the row loop, as the script writes it. */
  method ReadGenenameRow(line: string) returns (r: Result<Option<(string, seq<string>)>>)
    ensures r == GenenameRow(line)
  {
    var pieces := Split(line, '\t');
    if |pieces| < 3 {
      return Err(IndexError);
    }
    var symbol := Strip(pieces[0]);
    var synonyms := pieces[1];
    var uniprot := Strip(pieces[2]);
    if uniprot == "" {
      return Ok(None);
    }
    var names := [symbol];
    if |synonyms| > 0 {
      names := names + StripAll(Split(synonyms, ','));
    } else {
      assert names == [symbol] + [];
    }
    return Ok(Some((uniprot, names)));
  }

  /** `parse_uniprotToGenename`, over the lines of the file. */
  method ParseUniprotToGenename(lines: seq<string>) returns (r: Result<map<string, seq<string>>>)
    ensures r == Genenames(lines)
  {
    ghost var es := GenenameRows(lines);
    var mapping: map<string, seq<string>> := map[];
    for k := 0 to |lines|
      invariant Appended(es[..k]) == Ok(mapping)
    {
      var row := ReadGenenameRow(lines[k]);
      assert es[k] == row;
      if row.Err? {
        AppendedStops(es, k);
        return Err(row.error);
      }
      AppendedStep(es, k, mapping);
      if row.value.Some? {
        var (uniprot, names) := row.value.value;
        mapping := mapping[uniprot := GetList(mapping, uniprot) + names];
      }
    }
    assert es[..|lines|] == es;
    return Ok(mapping);
  }

  // ----- parse_mimtosp -----

  /** `"".join(line.strip().split())`. */
  function Squeeze(line: string): string {
    Join(SplitWs(Strip(line)), "")
  }

  /** It removes every whitespace character. */
  lemma SqueezeRemovesSpaces(line: string)
    ensures Squeeze(line) == RemoveSpaces(Strip(line))
    ensures NoSpace(Squeeze(line))
  {
    JoinSplitWsRemovesSpaces(Strip(line));
  }

  /** `s.index(c, start)` finds the first `c` of `s[start..]`. */
  lemma IndexOfBefore(s: string, c: char, start: nat)
    requires start <= |s|
    ensures IndexOf(s, c, start).Ok? <==> c in s[start..]
    ensures IndexOf(s, c, start).Ok? ==> IndexOf(s, c, start).value == start + |Before(s[start..], c)|
  {
    var t := s[start..];
    var b := Before(t, c);
    assert forall i :: 0 <= i < |t| ==> t[i] == s[start + i];
    if IndexOf(s, c, start).Ok? {
      var v := IndexOf(s, c, start).value;
      assert t[v - start] == c;
      assert |b| <= v - start;
      assert |b| < |t| ==> t[|b|] == c;
    } else {
      assert c !in t;
    }
  }

  /** `gene[gene.index('(') + 1 : gene.index(')', start)]`, or the ValueError of either
      `index`. */
  function UniprotOf(gene: string): (r: Result<string>)
    ensures r.Err? ==> r.error == ValueError
  {
    var open :- IndexOf(gene, '(', 0);
    var close :- IndexOf(gene, ')', open + 1);
    Ok(gene[open + 1..close])
  }

  /** The text from `start` up to the `c` that `index` finds is the text before the first `c`. */
  lemma IndexOfSlice(s: string, c: char, start: nat)
    requires start <= |s| && IndexOf(s, c, start).Ok?
    ensures s[start..IndexOf(s, c, start).value] == Before(s[start..], c)
  {
    IndexOfBefore(s, c, start);
    var t := s[start..];
    var bt := Before(t, c);
    assert s[start..IndexOf(s, c, start).value] == t[..|bt|];
  }

  /** That is the text between the first '(' and the next ')', and the error comes
      exactly when either is missing. */
  lemma UniprotOfBetween(gene: string)
    ensures UniprotOf(gene).Ok? <==> |Before(gene, '(')| < |gene| && ')' in gene[|Before(gene, '(')| + 1..]
    ensures UniprotOf(gene).Ok? ==> UniprotOf(gene).value == Before(gene[|Before(gene, '(')| + 1..], ')')
  {
    IndexOfBefore(gene, '(', 0);
    assert gene[0..] == gene;
    var b := |Before(gene, '(')|;
    if IndexOf(gene, '(', 0).Err? {
      BeforeAbsent(gene, '(');
    } else {
      IndexOfBefore(gene, ')', b + 1);
      if IndexOf(gene, ')', b + 1).Ok? {
        IndexOfSlice(gene, ')', b + 1);
      }
    }
  }

  /** The UniProt ids of the gene pieces, read up to the first empty piece, or the first
      ValueError. */
  function Uniprots(pieces: seq<string>): (r: Result<seq<string>>)
    ensures r.Err? ==> r.error == ValueError
  {
    if |pieces| == 0 || pieces[0] == "" then Ok([])
    else
      var u :- UniprotOf(pieces[0]);
      var rest :- Uniprots(pieces[1..]);
      Ok([u] + rest)
  }

  /** The ids are those of the pieces before the first empty one; the read fails exactly
      when one of those pieces is malformed. */
  lemma {:induction false} UniprotsPrefix(pieces: seq<string>)
    ensures Uniprots(pieces).Ok? ==> var ids := Uniprots(pieces).value;
      && |ids| <= |pieces| && (|ids| == |pieces| || pieces[|ids|] == "")
      && forall k :: 0 <= k < |ids| ==> pieces[k] != "" && UniprotOf(pieces[k]) == Ok(ids[k])
    ensures Uniprots(pieces).Err? ==> exists k :: (0 <= k < |pieces| && pieces[k] != "" && UniprotOf(pieces[k]).Err? && forall j :: 0 <= j < k ==> pieces[j] != "")
  {
    if |pieces| > 0 && pieces[0] != "" && UniprotOf(pieces[0]).Ok? {
      var t := pieces[1..];
      UniprotsPrefix(t);
      assert forall k :: 0 <= k < |t| ==> t[k] == pieces[k + 1];
      if Uniprots(t).Err? {
        var k :| 0 <= k < |t| && t[k] != "" && UniprotOf(t[k]).Err? && forall j :: 0 <= j < k ==> t[j] != "";
        assert forall j :: 0 <= j < k + 1 ==> pieces[j] != "";
      }
    }
  }

  /** The list appended for a run of ids: each id followed by its gene names. */
  function Expand(ids: seq<string>, genenames: map<string, seq<string>>): (r: seq<string>)
    ensures |r| >= |ids|
  {
    if |ids| == 0 then []
    else
      var u := ids[|ids| - 1];
      Expand(ids[..|ids| - 1], genenames) + [u] + GetList(genenames, u)
  }

  /** A name is appended exactly when it is one of the ids or a gene name of one. */
  lemma {:induction false} ExpandMembers(ids: seq<string>, genenames: map<string, seq<string>>, x: string)
    ensures x in Expand(ids, genenames) <==> x in ids || exists u :: u in ids && x in GetList(genenames, u)
  {
    if |ids| > 0 {
      var init := ids[..|ids| - 1];
      ExpandMembers(init, genenames, x);
      assert ids == init + [ids[|ids| - 1]];
    }
  }

  /** `mapping[mim].append(...)` and `.extend(...)` for a run of ids, done only for a
      valid mim; the entry exists only once something is appended. */
  function Added(mapping: map<string, seq<string>>, mim: string, valid: set<string>, xs: seq<string>): map<string, seq<string>> {
    if mim in valid && xs != [] then mapping[mim := GetList(mapping, mim) + xs] else mapping
  }

  /** What one line of the `mimtosp` file says on its own: the mim it starts, if it is a
      header, and the ids of its genes. */
  datatype MimLine = MimLine(header: Option<string>, ids: Result<seq<string>>)

  /** A squeezed line that splits into exactly two pieces on ':' names a new mim and starts
      its gene list; any other line continues the current mim's list. */
  function ParseMimLine(line: string): MimLine {
    var l := Squeeze(line);
    var pieces := Split(Strip(l), ':');
    if |pieces| == 2 then MimLine(Some(Strip(Split(l, ':')[0])), Uniprots(Split(Strip(Split(l, ':')[1]), ',')))
    else MimLine(None, Uniprots(Split(l, ',')))
  }

  /** The header of a squeezed line needs no stripping: it is the text before the ':'. */
  lemma ParseMimLineHeader(line: string)
    ensures var l := Squeeze(line);
      ParseMimLine(line).header == if |Split(l, ':')| == 2 then Some(Split(l, ':')[0]) else None
  {
    var l := Squeeze(line);
    SqueezeRemovesSpaces(line);
    var pieces := Split(l, ':');
    if |pieces| == 2 {
      JoinHas(pieces, [':'], 0);
      assert NoSpace(pieces[0]);
    }
  }

  /** The characters of one part all occur in the joined text. */
  lemma {:induction false} JoinHas(parts: seq<string>, sep: string, k: nat)
    requires k < |parts|
    ensures forall x :: x in parts[k] ==> x in Join(parts, sep)
  {
    if |parts| > 1 {
      if k == 0 {
        assert Join(parts, sep) == parts[0] + (sep + Join(parts[1..], sep));
      } else {
        JoinHas(parts[1..], sep, k - 1);
        assert Join(parts, sep) == (parts[0] + sep) + Join(parts[1..], sep);
      }
    }
  }

  /** The current mim and the mapping built so far. */
  datatype SpState = SpState(mim: string, mapping: map<string, seq<string>>)

  /** One line of the `mimtosp` loop. */
  function MimStep(st: SpState, p: MimLine, genenames: map<string, seq<string>>, valid: set<string>): Result<SpState> {
    var mim := if p.header.Some? then p.header.value else st.mim;
    var ids :- p.ids;
    Ok(SpState(mim, Added(st.mapping, mim, valid, Expand(ids, genenames))))
  }

  /** The state after the loop has read lines given as `ps`, or the first error. */
  function MimFold(ps: seq<MimLine>, genenames: map<string, seq<string>>, valid: set<string>): Result<SpState> {
    if |ps| == 0 then Ok(SpState("", map[]))
    else
      var init := MimFold(ps[..|ps| - 1], genenames, valid);
      if init.Err? then init else MimStep(init.value, ps[|ps| - 1], genenames, valid)
  }

  function MimLines(lines: seq<string>): (r: seq<MimLine>)
    ensures |r| == |lines|
    ensures forall k :: 0 <= k < |lines| ==> r[k] == ParseMimLine(lines[k])
  {
    seq(|lines|, k requires 0 <= k < |lines| => ParseMimLine(lines[k]))
  }

  /** The state `parse_mimtosp` ends in, or its ValueError. */
  function MimToSp(lines: seq<string>, genenames: map<string, seq<string>>, valid: set<string>): Result<SpState> {
    MimFold(MimLines(lines), genenames, valid)
  }

  /** The read fails exactly when a line's run of genes holds a malformed one. */
  lemma {:induction false} MimFoldFails(ps: seq<MimLine>, genenames: map<string, seq<string>>, valid: set<string>)
    ensures MimFold(ps, genenames, valid).Err? <==> exists k :: 0 <= k < |ps| && ps[k].ids.Err?
    ensures MimFold(ps, genenames, valid).Err? ==> exists k :: 0 <= k < |ps| && ps[k].ids == Err(MimFold(ps, genenames, valid).error)
  {
    if |ps| > 0 {
      var init := ps[..|ps| - 1];
      MimFoldFails(init, genenames, valid);
      assert forall k :: 0 <= k < |init| ==> init[k] == ps[k];
    }
  }

  /** Only valid mims get entries, and every entry is non-empty. */
  lemma {:induction false} MimFoldValid(ps: seq<MimLine>, genenames: map<string, seq<string>>, valid: set<string>, m: string)
    requires MimFold(ps, genenames, valid).Ok?
    ensures m in MimFold(ps, genenames, valid).value.mapping ==> m in valid && MimFold(ps, genenames, valid).value.mapping[m] != []
  {
    if |ps| > 0 {
      MimFoldValid(ps[..|ps| - 1], genenames, valid, m);
    }
  }

  lemma MimToSpValid(lines: seq<string>, genenames: map<string, seq<string>>, valid: set<string>, m: string)
    requires MimToSp(lines, genenames, valid).Ok?
    ensures MimToSp(lines, genenames, valid).value.mapping.Keys <= valid
    ensures m in MimToSp(lines, genenames, valid).value.mapping ==> MimToSp(lines, genenames, valid).value.mapping[m] != []
  {
    forall x | x in MimToSp(lines, genenames, valid).value.mapping ensures x in valid {
      MimFoldValid(MimLines(lines), genenames, valid, x);
    }
    MimFoldValid(MimLines(lines), genenames, valid, m);
  }

  /** The parse fails, with a ValueError, exactly when some line holds a malformed gene
      before its first empty piece. */
  lemma MimToSpFails(lines: seq<string>, genenames: map<string, seq<string>>, valid: set<string>)
    ensures MimToSp(lines, genenames, valid).Err? <==> exists k :: 0 <= k < |lines| && ParseMimLine(lines[k]).ids.Err?
    ensures MimToSp(lines, genenames, valid).Err? ==> MimToSp(lines, genenames, valid).error == ValueError
  {
    MimFoldFails(MimLines(lines), genenames, valid);
  }

  lemma {:induction false} MimFoldPrefixFails(ps: seq<MimLine>, genenames: map<string, seq<string>>, valid: set<string>, n: nat)
    requires n <= |ps| && MimFold(ps[..n], genenames, valid).Err?
    ensures MimFold(ps, genenames, valid) == MimFold(ps[..n], genenames, valid)
    decreases |ps| - n
  {
    if n < |ps| {
      assert ps[..n + 1][..n] == ps[..n];
      MimFoldPrefixFails(ps, genenames, valid, n + 1);
    } else {
      assert ps[..n] == ps;
    }
  }

  lemma MimFoldStep(ps: seq<MimLine>, k: nat, genenames: map<string, seq<string>>, valid: set<string>)
    requires k < |ps| && MimFold(ps[..k], genenames, valid).Ok?
    ensures MimFold(ps[..k + 1], genenames, valid) == MimStep(MimFold(ps[..k], genenames, valid).value, ps[k], genenames, valid)
  {
    assert ps[..k + 1][..k] == ps[..k];
  }

  /** `done` in front of a result, an error staying an error. */
  function Prepend(done: seq<string>, r: Result<seq<string>>): Result<seq<string>> {
    if r.Err? then r else Ok(done + r.value)
  }

  /** The two `index` calls of the gene loop. */
  method ReadUniprot(gene: string) returns (r: Result<string>)
    ensures r == UniprotOf(gene)
  {
    var open :- IndexOf(gene, '(', 0);
    var start := open + 1;
    var close :- IndexOf(gene, ')', start);
    return Ok(gene[start..close]);
  }

  /** One piece of the gene loop read: the ids still to come follow `done + [u]`. */
  lemma UniprotsStep(pieces: seq<string>, k: nat, done: seq<string>, u: string)
    requires k < |pieces| && pieces[k] != "" && UniprotOf(pieces[k]) == Ok(u)
    requires Uniprots(pieces) == Prepend(done, Uniprots(pieces[k..]))
    ensures Uniprots(pieces) == Prepend(done + [u], Uniprots(pieces[k + 1..]))
  {
    assert pieces[k..][1..] == pieces[k + 1..];
    var rest := Uniprots(pieces[k + 1..]);
    if rest.Ok? {
      assert done + ([u] + rest.value) == (done + [u]) + rest.value;
    }
  }

  lemma ExpandSnoc(done: seq<string>, u: string, genenames: map<string, seq<string>>)
    ensures Expand(done + [u], genenames) == Expand(done, genenames) + [u] + GetList(genenames, u)
  {
    assert (done + [u])[..|done|] == done;
  }

  lemma AddedAppend(mapping: map<string, seq<string>>, mim: string, valid: set<string>, e: seq<string>, u: string, names: seq<string>)
    ensures var out := Added(mapping, mim, valid, e);
      var once := out[mim := GetList(out, mim) + [u]];
      Added(mapping, mim, valid, e + [u] + names) == if mim in valid then once[mim := once[mim] + names] else out
  {
    if mim in valid {
      var g := GetList(mapping, mim);
      assert g + (e + [u] + names) == g + e + [u] + names;
      var out := Added(mapping, mim, valid, e);
      assert GetList(out, mim) == g + e;
    }
  }

  /** The two appends for one id extend the list by that id and its gene names. */
  lemma AddedStep(mapping: map<string, seq<string>>, mim: string, valid: set<string>, done: seq<string>, u: string, genenames: map<string, seq<string>>)
    ensures var out := Added(mapping, mim, valid, Expand(done, genenames));
      var once := out[mim := GetList(out, mim) + [u]];
      Added(mapping, mim, valid, Expand(done + [u], genenames)) == if mim in valid then once[mim := once[mim] + GetList(genenames, u)] else out
  {
    ExpandSnoc(done, u, genenames);
    AddedAppend(mapping, mim, valid, Expand(done, genenames), u, GetList(genenames, u));
  }

  /** The two appends of the gene loop for one id: the id, then its gene names. */
  method AddUniprot(mapping: map<string, seq<string>>, mim: string, valid: set<string>, ghost done: seq<string>,
                    u: string, genenames: map<string, seq<string>>, out: map<string, seq<string>>)
    returns (o: map<string, seq<string>>)
    requires out == Added(mapping, mim, valid, Expand(done, genenames))
    ensures o == Added(mapping, mim, valid, Expand(done + [u], genenames))
  {
    AddedStep(mapping, mim, valid, done, u, genenames);
    o := out;
    if mim in valid {
      o := o[mim := GetList(o, mim) + [u]];
      o := o[mim := o[mim] + GetList(genenames, u)];
    }
  }

  /** The inner loop over `genes.split(',')` for the current mim. */
  method ReadGenes(mapping: map<string, seq<string>>, mim: string, pieces: seq<string>,
                   genenames: map<string, seq<string>>, valid: set<string>)
    returns (r: Result<map<string, seq<string>>>)
    ensures Uniprots(pieces).Err? ==> r == Err(ValueError)
    ensures Uniprots(pieces).Ok? ==> r == Ok(Added(mapping, mim, valid, Expand(Uniprots(pieces).value, genenames)))
  {
    var out := mapping;
    ghost var done: seq<string> := [];
    assert pieces[0..] == pieces;
    if Uniprots(pieces).Ok? {
      assert [] + Uniprots(pieces).value == Uniprots(pieces).value;
    }
    var k := 0;
    while k < |pieces|
      invariant 0 <= k <= |pieces|
      invariant Uniprots(pieces) == Prepend(done, Uniprots(pieces[k..]))
      invariant out == Added(mapping, mim, valid, Expand(done, genenames))
    {
      var gene := pieces[k];
      if gene == "" {
        assert Uniprots(pieces[k..]) == Ok([]);
        assert done + [] == done;
        return Ok(out);
      }
      var u :- ReadUniprot(gene);
      out := AddUniprot(mapping, mim, valid, done, u, genenames, out);
      UniprotsStep(pieces, k, done, u);
      done := done + [u];
      k := k + 1;
    }
    assert pieces[k..] == [];
    assert done + [] == done;
    return Ok(out);
  }

  /** The squeezing and the header test of one `mimtosp` line, as the script writes them. */
  method ReadMimLine(line0: string, mim0: string) returns (mim: string, genes: string)
    ensures ParseMimLine(line0).ids == Uniprots(Split(genes, ','))
    ensures mim == if ParseMimLine(line0).header.Some? then ParseMimLine(line0).header.value else mim0
  {
    var line := Join(SplitWs(Strip(line0)), "");
    var pieces := Split(Strip(line), ':');
    if |pieces| == 2 {
      mim := Strip(Split(line, ':')[0]);
      genes := Strip(Split(line, ':')[1]);
    } else {
      mim := mim0;
      genes := line;
    }
  }

  /** `parse_mimtosp`, over the lines of the file. */
  method ParseMimToSp(lines: seq<string>, genenames: map<string, seq<string>>, valid: set<string>)
    returns (r: Result<map<string, seq<string>>>)
    ensures r.Err? <==> MimToSp(lines, genenames, valid).Err?
    ensures r.Err? ==> r == Err(ValueError)
    ensures r.Ok? ==> r.value == MimToSp(lines, genenames, valid).value.mapping
  {
    ghost var ps := MimLines(lines);
    var mapping: map<string, seq<string>> := map[];
    var mim := "";
    for k := 0 to |lines|
      invariant MimFold(ps[..k], genenames, valid) == Ok(SpState(mim, mapping))
    {
      ghost var st := SpState(mim, mapping);
      var genes;
      mim, genes := ReadMimLine(lines[k], mim);
      var m := ReadGenes(mapping, mim, Split(genes, ','), genenames, valid);
      MimFoldStep(ps, k, genenames, valid);
      if m.Err? {
        assert MimFold(ps[..k + 1], genenames, valid).Err?;
        MimFoldPrefixFails(ps, genenames, valid, k + 1);
        return Err(ValueError);
      }
      mapping := m.value;
    }
    assert ps[..|lines|] == ps;
    return Ok(mapping);
  }

  // ----- Interactions -----

  /** `Interaction('columnsHPRD', line)`: the gene symbols of columns 0 and 3 of the
      tab-separated line. With fewer than four columns the second symbol is never set,
      and reading it is an AttributeError. */
  function InteractionOf(line: string): (r: Result<(string, string)>)
    ensures r.Err? <==> |Split(Strip(line), '\t')| < 4
    ensures r.Err? ==> r.error == AttributeError
    ensures r.Ok? ==> r.value == (Split(Strip(line), '\t')[0], Split(Strip(line), '\t')[3])
  {
    var args := Split(Strip(line), '\t');
    if |args| < 4 then Err(AttributeError) else Ok((args[0], args[3]))
  }

  /** `__ppi` after `__loadInteractions` has read `rows`. */
  function Ppi(rows: seq<(string, string)>): map<string, seq<string>> {
    if |rows| == 0 then map[]
    else
      var m := Ppi(rows[..|rows| - 1]);
      var (a, b) := rows[|rows| - 1];
      var m' := m[a := GetList(m, a) + [b]];
      if a != b then m'[b := GetList(m', b) + [a]] else m'
  }

  /** `b` is listed under `a` exactly when some row links them, in either direction. */
  lemma {:induction false} PpiMembers(rows: seq<(string, string)>, a: string, b: string)
    ensures b in GetList(Ppi(rows), a) <==> exists k :: 0 <= k < |rows| && (rows[k] == (a, b) || rows[k] == (b, a))
  {
    if |rows| > 0 {
      var init := rows[..|rows| - 1];
      PpiMembers(init, a, b);
      assert forall k :: 0 <= k < |init| ==> init[k] == rows[k];
    }
  }

  /** So the network is symmetric. */
  lemma PpiSymmetric(rows: seq<(string, string)>, a: string, b: string)
    ensures b in GetList(Ppi(rows), a) <==> a in GetList(Ppi(rows), b)
  {
    PpiMembers(rows, a, b);
    PpiMembers(rows, b, a);
  }

  /** The rows a gene takes part in; a self-interaction counts once. */
  function Degree(rows: seq<(string, string)>, a: string): nat {
    if |rows| == 0 then 0
    else
      var (x, y) := rows[|rows| - 1];
      Degree(rows[..|rows| - 1], a) + if x == a || y == a then 1 else 0
  }

  /** A gene's list has one entry per row it takes part in: a self-interaction is
      recorded once. */
  lemma {:induction false} PpiDegree(rows: seq<(string, string)>, a: string)
    ensures |GetList(Ppi(rows), a)| == Degree(rows, a)
  {
    if |rows| > 0 {
      PpiDegree(rows[..|rows| - 1], a);
    }
  }

  /** `__loadInteractions`, over the interactions the parser yields. */
  method LoadInteractions(rows: seq<(string, string)>) returns (ppi: map<string, seq<string>>)
    ensures ppi == Ppi(rows)
  {
    ppi := map[];
    for k := 0 to |rows|
      invariant ppi == Ppi(rows[..k])
    {
      assert rows[..k + 1][..k] == rows[..k];
      var (a, b) := rows[k];
      ppi := ppi[a := GetList(ppi, a) + [b]];
      if a != b {
        ppi := ppi[b := GetList(ppi, b) + [a]];
      }
    }
    assert rows[..|rows|] == rows;
  }

  // ----- produce_benchmark -----

  /** `min` and `max` of a pair of strings; on a tie each returns its first argument. */
  function Min(a: string, b: string): string {
    if StrLess(b, a) then b else a
  }

  function Max(a: string, b: string): string {
    if StrLess(a, b) then b else a
  }

  /** `(min, max)` is the pair or its reverse, and for distinct strings it is ordered. */
  lemma MinMax(a: string, b: string)
    ensures (Min(a, b), Max(a, b)) == (a, b) || (Min(a, b), Max(a, b)) == (b, a)
    ensures a != b ==> StrLess(Min(a, b), Max(a, b))
    ensures StrLess(a, b) ==> (Min(a, b), Max(a, b)) == (a, b)
  {
    if StrLess(a, b) && StrLess(b, a) {
      StrLessTransitive(a, b, a);
      StrLessIrreflexive(a);
    }
    if a != b {
      StrLessTotal(a, b);
    }
  }

  /** The interactors of a list of genes: their network lists, concatenated. */
  function Interactors(ppi: map<string, seq<string>>, genes: seq<string>): seq<string> {
    if |genes| == 0 then []
    else Interactors(ppi, genes[..|genes| - 1]) + GetList(ppi, genes[|genes| - 1])
  }

  lemma {:induction false} InteractorsMembers(ppi: map<string, seq<string>>, genes: seq<string>, x: string)
    ensures x in Interactors(ppi, genes) <==> exists g :: g in genes && x in GetList(ppi, g)
  {
    if |genes| > 0 {
      var init := genes[..|genes| - 1];
      InteractorsMembers(ppi, init, x);
      assert genes == init + [genes[|genes| - 1]];
    }
  }

  /** The two diseases share a protein. */
  predicate Shared(mimtosp: map<string, seq<string>>, a: string, b: string) {
    Elems(GetList(mimtosp, a)) * Elems(GetList(mimtosp, b)) != {}
  }

  /** Some interactor of `b`'s genes is a gene of `a`. */
  predicate Interacts(mimtosp: map<string, seq<string>>, ppi: map<string, seq<string>>, a: string, b: string) {
    Elems(Interactors(ppi, GetList(mimtosp, b))) * Elems(GetList(mimtosp, a)) != {}
  }

  /** The decision rule for a pair: a pair sharing a protein is written only under
      `useSharedProteins`; any other pair is written when their genes interact, in either
      direction. */
  predicate Written(mimtosp: map<string, seq<string>>, ppi: map<string, seq<string>>, d0: string, d1: string, useShared: bool) {
    if Shared(mimtosp, d0, d1) then useShared
    else Interacts(mimtosp, ppi, d0, d1) || Interacts(mimtosp, ppi, d1, d0)
  }

  /** The rule does not depend on the order of the pair. */
  lemma WrittenSymmetric(mimtosp: map<string, seq<string>>, ppi: map<string, seq<string>>, d0: string, d1: string, useShared: bool)
    ensures Written(mimtosp, ppi, d0, d1, useShared) == Written(mimtosp, ppi, d1, d0, useShared)
  {
    var a, b := Elems(GetList(mimtosp, d0)), Elems(GetList(mimtosp, d1));
    assert a * b == b * a;
  }

  /** Over a symmetric network the reverse check adds nothing: the genes of `b` interact
      with those of `a` exactly when those of `a` interact with those of `b`. */
  lemma InteractsSymmetric(mimtosp: map<string, seq<string>>, ppi: map<string, seq<string>>, a: string, b: string)
    requires forall x, y :: y in GetList(ppi, x) <==> x in GetList(ppi, y)
    ensures Interacts(mimtosp, ppi, a, b) <==> Interacts(mimtosp, ppi, b, a)
  {
    var ga, gb := GetList(mimtosp, a), GetList(mimtosp, b);
    if Interacts(mimtosp, ppi, a, b) {
      var x :| x in Elems(Interactors(ppi, gb)) * Elems(ga);
      InteractorsMembers(ppi, gb, x);
      var g :| g in gb && x in GetList(ppi, g);
      InteractorsMembers(ppi, ga, g);
      assert g in Elems(Interactors(ppi, ga)) * Elems(gb);
    }
    if Interacts(mimtosp, ppi, b, a) {
      var x :| x in Elems(Interactors(ppi, ga)) * Elems(gb);
      InteractorsMembers(ppi, ga, x);
      var g :| g in ga && x in GetList(ppi, g);
      InteractorsMembers(ppi, gb, g);
      assert g in Elems(Interactors(ppi, gb)) * Elems(ga);
    }
  }

  /** The records written for `pairs`: `(min, max)` for each pair the rule accepts. */
  function Benchmark(mimtosp: map<string, seq<string>>, ppi: map<string, seq<string>>, pairs: seq<(string, string)>, useShared: bool): (r: seq<(string, string)>)
    ensures |r| <= |pairs|
  {
    Select(pairs, (p: (string, string)) => Written(mimtosp, ppi, p.0, p.1, useShared), (p: (string, string)) => (Min(p.0, p.1), Max(p.0, p.1)))
  }

  /** Over the diseases' keys, a record `(a, b)` is written exactly when `a < b` are
      two diseases the rule accepts: each unordered pair is considered once and written
      smaller first. */
  lemma BenchmarkMembers(mimtosp: map<string, seq<string>>, ppi: map<string, seq<string>>, keys: seq<string>, useShared: bool, a: string, b: string)
    requires Distinct(keys) && forall k :: k in keys <==> k in mimtosp
    ensures (a, b) in Benchmark(mimtosp, ppi, Pairs(keys), useShared) <==>
      a in mimtosp && b in mimtosp && StrLess(a, b) && Written(mimtosp, ppi, a, b, useShared)
  {
    BenchmarkSound(mimtosp, ppi, keys, useShared, a, b);
    BenchmarkComplete(mimtosp, ppi, keys, useShared, a, b);
  }

  lemma BenchmarkSound(mimtosp: map<string, seq<string>>, ppi: map<string, seq<string>>, keys: seq<string>, useShared: bool, a: string, b: string)
    requires Distinct(keys) && forall k :: k in keys <==> k in mimtosp
    ensures (a, b) in Benchmark(mimtosp, ppi, Pairs(keys), useShared) ==>
      a in mimtosp && b in mimtosp && StrLess(a, b) && Written(mimtosp, ppi, a, b, useShared)
  {
    var pairs := Pairs(keys);
    var keep := (p: (string, string)) => Written(mimtosp, ppi, p.0, p.1, useShared);
    var f := (p: (string, string)) => (Min(p.0, p.1), Max(p.0, p.1));
    assert Benchmark(mimtosp, ppi, pairs, useShared) == Select(pairs, keep, f);
    SelectMembers(pairs, keep, f, (a, b));
    if (a, b) in Benchmark(mimtosp, ppi, pairs, useShared) {
      var k :| 0 <= k < |pairs| && keep(pairs[k]) && (a, b) == f(pairs[k]);
      var (d0, d1) := pairs[k];
      PairsMembers(keys, d0, d1);
      MinMax(d0, d1);
      WrittenSymmetric(mimtosp, ppi, d0, d1, useShared);
    }
  }

  lemma BenchmarkComplete(mimtosp: map<string, seq<string>>, ppi: map<string, seq<string>>, keys: seq<string>, useShared: bool, a: string, b: string)
    requires Distinct(keys) && forall k :: k in keys <==> k in mimtosp
    ensures a in mimtosp && b in mimtosp && StrLess(a, b) && Written(mimtosp, ppi, a, b, useShared) ==>
      (a, b) in Benchmark(mimtosp, ppi, Pairs(keys), useShared)
  {
    var pairs := Pairs(keys);
    var keep := (p: (string, string)) => Written(mimtosp, ppi, p.0, p.1, useShared);
    var f := (p: (string, string)) => (Min(p.0, p.1), Max(p.0, p.1));
    assert Benchmark(mimtosp, ppi, pairs, useShared) == Select(pairs, keep, f);
    if a in mimtosp && b in mimtosp && StrLess(a, b) && Written(mimtosp, ppi, a, b, useShared) {
      SelectMembers(pairs, keep, f, (a, b));
      StrLessIrreflexive(a);
      PairsCover(keys, a, b);
      WrittenSymmetric(mimtosp, ppi, a, b, useShared);
      MinMax(a, b);
      MinMax(b, a);
      if (a, b) in pairs {
        var k :| 0 <= k < |pairs| && pairs[k] == (a, b);
        assert keep(pairs[k]) && (a, b) == f(pairs[k]);
      } else {
        var k :| 0 <= k < |pairs| && pairs[k] == (b, a);
        assert keep(pairs[k]) && (a, b) == f(pairs[k]);
      }
    }
  }

  /** The loop that extends `interactors` with the network list of each gene. */
  method CollectInteractors(ppi: map<string, seq<string>>, genes: seq<string>) returns (interactors: seq<string>)
    ensures interactors == Interactors(ppi, genes)
  {
    interactors := [];
    for k := 0 to |genes|
      invariant interactors == Interactors(ppi, genes[..k])
    {
      assert genes[..k + 1][..k] == genes[..k];
      interactors := interactors + GetList(ppi, genes[k]);
    }
    assert genes[..|genes|] == genes;
  }

  /** The body of the pair loop: whether the pair is written. */
  method DecidePair(mimtosp: map<string, seq<string>>, ppi: map<string, seq<string>>, d0: string, d1: string, useShared: bool)
    returns (written: bool)
    ensures written == Written(mimtosp, ppi, d0, d1, useShared)
  {
    var leftValue, rightValue := Min(d0, d1), Max(d0, d1);
    MinMax(d0, d1);
    WrittenSymmetric(mimtosp, ppi, d0, d1, useShared);
    if Elems(GetList(mimtosp, leftValue)) * Elems(GetList(mimtosp, rightValue)) != {} {
      return useShared;
    }
    var interactors := CollectInteractors(ppi, GetList(mimtosp, d1));
    if Elems(interactors) * Elems(GetList(mimtosp, d0)) != {} {
      return true;
    }
    interactors := CollectInteractors(ppi, GetList(mimtosp, d0));
    return Elems(interactors) * Elems(GetList(mimtosp, d1)) != {};
  }

  /** `produce_benchmark` over the keys of `mimtosp` in the dict's order. */
  method ProduceBenchmark(mimtosp: map<string, seq<string>>, keys: seq<string>, ppi: map<string, seq<string>>, useShared: bool)
    returns (out: seq<(string, string)>)
    requires Distinct(keys) && forall k :: k in keys <==> k in mimtosp
    ensures out == Benchmark(mimtosp, ppi, Pairs(keys), useShared)
  {
    var allPairs := Pairs(keys);
    out := [];
    for k := 0 to |allPairs|
      invariant out == Benchmark(mimtosp, ppi, allPairs[..k], useShared)
    {
      assert allPairs[..k + 1][..k] == allPairs[..k];
      var (d0, d1) := allPairs[k];
      var leftValue, rightValue := Min(d0, d1), Max(d0, d1);
      var written := DecidePair(mimtosp, ppi, d0, d1, useShared);
      if written {
        out := out + [(leftValue, rightValue)];
      }
    }
    assert allPairs[..|allPairs|] == allPairs;
  }
}
