/** `MIM2MESH.py`: each OMIM record followed by the MeSH ids of the publications it
    cites. Files are given as their lines, without line terminators. */
module Mim2Mesh {
  import opened Wrappers
  import opened Strings
  import opened Combinations
  import opened Tables

  /** A field of a whitespace-split line: non-empty and free of whitespace. */
  predicate Token(s: string) {
    |s| > 0 && NoSpace(s)
  }

  // ----- readMappingFile -----

  /** A line of a mapping file: its first token mapped to the remaining ones. A line with
      no token is an IndexError. */
  function MappingRow(line: string): (r: Result<Option<(string, seq<string>)>>)
    ensures r.Err? <==> |SplitWs(Strip(line))| == 0
    ensures r.Err? ==> r.error == IndexError
    ensures r.Ok? ==> r.value.Some? && Token(r.value.value.0)
                      && forall i :: 0 <= i < |r.value.value.1| ==> Token(r.value.value.1[i])
  {
    var sl := SplitWs(Strip(line));
    if |sl| == 0 then Err(IndexError) else Ok(Some((sl[0], sl[1..])))
  }

  function MappingRows(lines: seq<string>): seq<Result<Option<(string, seq<string>)>>> {
    seq(|lines|, k requires 0 <= k < |lines| => MappingRow(lines[k]))
  }

  /** A dict as Python keeps it: the values, and the keys in insertion order. */
  datatype Dict = Dict(keys: seq<string>, values: map<string, seq<string>>)

  /** The dict `readMappingFile` returns. */
  function MappingFile(lines: seq<string>): Result<Dict> {
    var es := MappingRows(lines);
    var values :- Assigned(es);
    Ok(Dict(KeyOrder(es), values))
  }

  /** A line with no token fails the read. Otherwise the keys are listed once each, in the
      order they first appear; each key holds the tokens after it on the last line that
      starts with it; and every key and value is a token. */
  lemma MappingFileMeaning(lines: seq<string>, u: string)
    ensures var r := MappingFile(lines);
      && (r.Err? <==> exists k :: 0 <= k < |lines| && |SplitWs(Strip(lines[k]))| == 0)
      && (r.Err? ==> r.error == IndexError)
      && (r.Ok? ==> Distinct(r.value.keys) && (u in r.value.keys <==> u in r.value.values))
      && (r.Ok? && u in r.value.values ==>
            (exists k :: 0 <= k < |lines|
              && MappingRow(lines[k]) == Ok(Some((u, r.value.values[u])))
              && forall j :: k < j < |lines| ==> !Sets(MappingRow(lines[j]), u)))
      && (r.Ok? && u in r.value.values ==> Token(u) && forall i :: 0 <= i < |r.value.values[u]| ==> Token(r.value.values[u][i]))
  {
    var es := MappingRows(lines);
    AssignedFails(es);
    assert forall k :: 0 <= k < |lines| ==> es[k] == MappingRow(lines[k]);
    if Assigned(es).Ok? {
      KeyOrderKeys(es);
      AssignedLast(es, u);
    }
  }

  /** `readMappingFile`, over the lines of the file. */
  method ReadMappingFile(lines: seq<string>) returns (r: Result<Dict>)
    ensures r == MappingFile(lines)
  {
    var keys := [];
    var values := map[];
    ghost var es := MappingRows(lines);
    for k := 0 to |lines|
      invariant Assigned(es[..k]) == Ok(values)
      invariant KeyOrder(es[..k]) == keys
    {
      var sl := SplitWs(Strip(lines[k]));
      assert es[k] == MappingRow(lines[k]);
      if |sl| == 0 {
        AssignedStops(es, k);
        return Err(IndexError);
      }
      AssignedOrderStep(es, k, values, keys, sl[0], sl[1..]);
      if sl[0] !in keys {
        keys := keys + [sl[0]];
      }
      values := values[sl[0] := sl[1..]];
    }
    assert es[..|lines|] == es;
    return Ok(Dict(keys, values));
  }

  // ----- mim2mesh -----

  /** The MeSH ids of a list of publications, concatenated in order with duplicates kept;
      an unknown publication contributes none. */
  function Meshes(pubmeds: seq<string>, pubmed2mesh: map<string, seq<string>>): seq<string> {
    if |pubmeds| == 0 then []
    else Meshes(pubmeds[..|pubmeds| - 1], pubmed2mesh) + GetList(pubmed2mesh, pubmeds[|pubmeds| - 1])
  }

  /** The concatenation splits along the publication list. */
  lemma {:induction false} MeshesAppend(a: seq<string>, b: seq<string>, pubmed2mesh: map<string, seq<string>>)
    ensures Meshes(a + b, pubmed2mesh) == Meshes(a, pubmed2mesh) + Meshes(b, pubmed2mesh)
  {
    if |b| == 0 {
      assert a + b == a;
    } else {
      var b' := b[..|b| - 1];
      assert (a + b)[..|a + b| - 1] == a + b';
      MeshesAppend(a, b', pubmed2mesh);
    }
  }

  /** An id is there exactly when some listed publication has it. */
  lemma {:induction false} MeshesMembers(pubmeds: seq<string>, pubmed2mesh: map<string, seq<string>>, x: string)
    ensures x in Meshes(pubmeds, pubmed2mesh) <==> exists p :: p in pubmeds && x in GetList(pubmed2mesh, p)
  {
    if |pubmeds| > 0 {
      var init := pubmeds[..|pubmeds| - 1];
      MeshesMembers(init, pubmed2mesh, x);
      assert pubmeds == init + [pubmeds[|pubmeds| - 1]];
    }
  }

  /** The fields of a mim's output line: the mim, then its MeSH ids. */
  function Fields(mim: string, mim2pubmed: map<string, seq<string>>, pubmed2mesh: map<string, seq<string>>): seq<string> {
    [mim] + Meshes(GetList(mim2pubmed, mim), pubmed2mesh)
  }

  /** The lines `mim2mesh` writes, one for each mim, in the given order, that collected at
      least one MeSH id. */
  function Mim2MeshLines(mims: seq<string>, mim2pubmed: map<string, seq<string>>, pubmed2mesh: map<string, seq<string>>): seq<string> {
    Select(mims, (mim: string) => |Fields(mim, mim2pubmed, pubmed2mesh)| > 1,
                 (mim: string) => Join(Fields(mim, mim2pubmed, pubmed2mesh), "\t"))
  }

  /** The MeSH ids in the table are tokens. */
  ghost predicate TokenValues(pubmed2mesh: map<string, seq<string>>) {
    forall p :: p in pubmed2mesh ==> forall q :: 0 <= q < |pubmed2mesh[p]| ==> Token(pubmed2mesh[p][q])
  }

  /** The fields of a line are tokens when the mim and the MeSH ids are, so the written
      line splits back into them. */
  lemma LineSplits(mim: string, mim2pubmed: map<string, seq<string>>, pubmed2mesh: map<string, seq<string>>)
    requires Token(mim) && TokenValues(pubmed2mesh)
    ensures SplitWs(Join(Fields(mim, mim2pubmed, pubmed2mesh), "\t")) == Fields(mim, mim2pubmed, pubmed2mesh)
  {
    var ms := Meshes(GetList(mim2pubmed, mim), pubmed2mesh);
    forall k | 0 <= k < |ms| ensures Token(ms[k]) {
      MeshesMembers(GetList(mim2pubmed, mim), pubmed2mesh, ms[k]);
      assert ms[k] in ms;
    }
    SplitWsJoin(Fields(mim, mim2pubmed, pubmed2mesh));
  }

  /** When every mim and MeSH id is a token, each line splits back into one of the mims
      and that mim's MeSH ids, at least one of them. */
  lemma Mim2MeshSplits(mims: seq<string>, mim2pubmed: map<string, seq<string>>, pubmed2mesh: map<string, seq<string>>, i: nat)
    requires (forall k :: 0 <= k < |mims| ==> Token(mims[k])) && TokenValues(pubmed2mesh)
    ensures var out := Mim2MeshLines(mims, mim2pubmed, pubmed2mesh);
      i < |out| ==> exists m :: m in mims && SplitWs(out[i]) == Fields(m, mim2pubmed, pubmed2mesh) && |SplitWs(out[i])| > 1
  {
    var keep := (m: string) => |Fields(m, mim2pubmed, pubmed2mesh)| > 1;
    var f := (m: string) => Join(Fields(m, mim2pubmed, pubmed2mesh), "\t");
    var out := Select(mims, keep, f);
    assert Mim2MeshLines(mims, mim2pubmed, pubmed2mesh) == out;
    if i < |out| {
      assert out[i] in out;
      SelectMembers(mims, keep, f, out[i]);
      var k :| 0 <= k < |mims| && keep(mims[k]) && out[i] == f(mims[k]);
      LineSplits(mims[k], mim2pubmed, pubmed2mesh);
      assert mims[k] in mims;
    }
  }

  /** Every mim that collected at least one MeSH id has its line. */
  lemma Mim2MeshCovers(mims: seq<string>, mim2pubmed: map<string, seq<string>>, pubmed2mesh: map<string, seq<string>>, mim: string)
    requires mim in mims && |Meshes(GetList(mim2pubmed, mim), pubmed2mesh)| > 0
    ensures Join(Fields(mim, mim2pubmed, pubmed2mesh), "\t") in Mim2MeshLines(mims, mim2pubmed, pubmed2mesh)
  {
    var keep := (m: string) => |Fields(m, mim2pubmed, pubmed2mesh)| > 1;
    var f := (m: string) => Join(Fields(m, mim2pubmed, pubmed2mesh), "\t");
    assert Mim2MeshLines(mims, mim2pubmed, pubmed2mesh) == Select(mims, keep, f);
    SelectMembers(mims, keep, f, f(mim));
    var k :| 0 <= k < |mims| && mims[k] == mim;
    assert keep(mims[k]);
  }

  /** Over distinct token mims no two lines are for the same mim. */
  lemma Mim2MeshOnce(mims: seq<string>, mim2pubmed: map<string, seq<string>>, pubmed2mesh: map<string, seq<string>>, i: nat, j: nat)
    requires Distinct(mims) && (forall k :: 0 <= k < |mims| ==> Token(mims[k])) && TokenValues(pubmed2mesh)
    ensures var out := Mim2MeshLines(mims, mim2pubmed, pubmed2mesh);
      i < j < |out| ==> |SplitWs(out[i])| > 0 && |SplitWs(out[j])| > 0 && SplitWs(out[i])[0] != SplitWs(out[j])[0]
  {
    var keep := (m: string) => |Fields(m, mim2pubmed, pubmed2mesh)| > 1;
    var f := (m: string) => Join(Fields(m, mim2pubmed, pubmed2mesh), "\t");
    var out := Select(mims, keep, f);
    assert Mim2MeshLines(mims, mim2pubmed, pubmed2mesh) == out;
    if i < j < |out| {
      SelectOrigins(mims, keep, f, i, j);
      var p, q :| 0 <= p < q < |mims| && out[i] == f(mims[p]) && out[j] == f(mims[q]);
      LineSplits(mims[p], mim2pubmed, pubmed2mesh);
      LineSplits(mims[q], mim2pubmed, pubmed2mesh);
    }
  }

  /** The inner loop: `line[1:]` after every publication of the mim was looked up. */
  method CollectMeshes(pubmeds: seq<string>, pubmed2mesh: map<string, seq<string>>) returns (meshes: seq<string>)
    ensures meshes == Meshes(pubmeds, pubmed2mesh)
  {
    meshes := [];
    for k := 0 to |pubmeds|
      invariant meshes == Meshes(pubmeds[..k], pubmed2mesh)
    {
      assert pubmeds[..k + 1][..k] == pubmeds[..k];
      meshes := meshes + GetList(pubmed2mesh, pubmeds[k]);
    }
    assert pubmeds[..|pubmeds|] == pubmeds;
  }

  /** `mim2mesh`, producing the lines instead of writing them; the mims are visited in
      the dict's key order. */
  method Mim2MeshMethod(mim2pubmed: Dict, pubmed2mesh: Dict) returns (out: seq<string>)
    ensures out == Mim2MeshLines(mim2pubmed.keys, mim2pubmed.values, pubmed2mesh.values)
  {
    var mims := mim2pubmed.keys;
    out := [];
    for k := 0 to |mims|
      invariant out == Mim2MeshLines(mims[..k], mim2pubmed.values, pubmed2mesh.values)
    {
      assert mims[..k + 1][..k] == mims[..k];
      var mimno := mims[k];
      var meshes := CollectMeshes(GetList(mim2pubmed.values, mimno), pubmed2mesh.values);
      var line := [mimno] + meshes;
      if |line| > 1 {
        out := out + [Join(line, "\t")];
      }
    }
    assert mims[..|mims|] == mims;
  }

  // ----- the script -----

  /** The lines the script writes for its two mapping files. */
  function Script(mim2pubmedLines: seq<string>, pubmed2meshLines: seq<string>): Result<seq<string>> {
    var mim2pubmed :- MappingFile(mim2pubmedLines);
    var pubmed2mesh :- MappingFile(pubmed2meshLines);
    Ok(Mim2MeshLines(mim2pubmed.keys, mim2pubmed.values, pubmed2mesh.values))
  }

  /** The keys and values the read puts in a dict are tokens. */
  lemma MappingFileTokens(lines: seq<string>)
    requires MappingFile(lines).Ok?
    ensures var d := MappingFile(lines).value;
      Distinct(d.keys) && (forall k :: 0 <= k < |d.keys| ==> Token(d.keys[k])) && TokenValues(d.values)
  {
    var d := MappingFile(lines).value;
    MappingFileMeaning(lines, "");
    forall k | 0 <= k < |d.keys| ensures Token(d.keys[k]) {
      MappingFileMeaning(lines, d.keys[k]);
      assert d.keys[k] in d.keys;
    }
    forall p | p in d.values ensures forall q :: 0 <= q < |d.values[p]| ==> Token(d.values[p][q]) {
      MappingFileMeaning(lines, p);
    }
  }

  /** Every line the script writes splits into a mim of the first file and that mim's
      MeSH ids, at least one of them; no mim has two lines. */
  lemma ScriptLines(mim2pubmedLines: seq<string>, pubmed2meshLines: seq<string>, i: nat, j: nat)
    requires Script(mim2pubmedLines, pubmed2meshLines).Ok?
    ensures var out := Script(mim2pubmedLines, pubmed2meshLines).value;
      var m1, m2 := MappingFile(mim2pubmedLines).value, MappingFile(pubmed2meshLines).value;
      && (i < |out| ==> exists m :: m in m1.values && SplitWs(out[i]) == Fields(m, m1.values, m2.values) && |SplitWs(out[i])| > 1)
      && (i < j < |out| ==> |SplitWs(out[i])| > 0 && |SplitWs(out[j])| > 0 && SplitWs(out[i])[0] != SplitWs(out[j])[0])
  {
    var m1, m2 := MappingFile(mim2pubmedLines).value, MappingFile(pubmed2meshLines).value;
    MappingFileTokens(mim2pubmedLines);
    MappingFileTokens(pubmed2meshLines);
    MappingFileMeaning(mim2pubmedLines, "");
    Mim2MeshSplits(m1.keys, m1.values, m2.values, i);
    Mim2MeshOnce(m1.keys, m1.values, m2.values, i, j);
    var out := Script(mim2pubmedLines, pubmed2meshLines).value;
    if i < |out| {
      var m :| m in m1.keys && SplitWs(out[i]) == Fields(m, m1.values, m2.values) && |SplitWs(out[i])| > 1;
      MappingFileMeaning(mim2pubmedLines, m);
    }
  }

  /** The script over the lines of its two input files. */
  method Run(mim2pubmedLines: seq<string>, pubmed2meshLines: seq<string>) returns (r: Result<seq<string>>)
    ensures r == Script(mim2pubmedLines, pubmed2meshLines)
  {
    var mim2pubmed :- ReadMappingFile(mim2pubmedLines);
    var pubmed2mesh :- ReadMappingFile(pubmed2meshLines);
    var out := Mim2MeshMethod(mim2pubmed, pubmed2mesh);
    return Ok(out);
  }
}
