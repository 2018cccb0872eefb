/** `extract_omim_list.py`: the OMIM ids of `mimTitles.txt` (its second tab-separated
    column), each once, comment lines skipped. Lines are given without their terminator;
    `""` stands for a line holding only its terminator. */
module ExtractOmimList {
  import opened Wrappers
  import opened Strings
  import Thesaurus

  /** `line[0] == "#"`; a line holding only its terminator starts with that, not with `#`. */
  predicate IsComment(line: string) {
    |line| > 0 && line[0] == '#'
  }

  /** `line.strip().split("\t")[1]`, IndexError when the line has no tab. */
  function SecondField(line: string): (r: Result<string>)
    ensures r.Err? <==> '\t' !in Strip(line)
    ensures r.Err? ==> r.error == IndexError
  {
    var fields := Split(Strip(line), '\t');
    if |fields| < 2 then Err(IndexError) else Ok(fields[1])
  }

  /** What one line gives the loop: nothing for a comment, else its second field or the
      IndexError of looking for it. */
  function Entry(line: string): (r: Option<Result<string>>)
    ensures r.None? <==> IsComment(line)
    ensures r.Some? ==> r.value == SecondField(line)
  {
    if IsComment(line) then None else Some(SecondField(line))
  }

  function Entries(lines: seq<string>): (r: seq<Option<Result<string>>>)
    ensures |r| == |lines|
    ensures forall k :: 0 <= k < |lines| ==> r[k] == Entry(lines[k])
  {
    seq(|lines|, k requires 0 <= k < |lines| => Entry(lines[k]))
  }

  /** A loop over `es` that skips the `None`s, adds each `Ok` to a set and stops at the
      first `Err`. */
  function Gather<T>(es: seq<Option<Result<T>>>): (r: Result<set<T>>)
    ensures r.Err? ==> exists k :: 0 <= k < |es| && es[k] == Some(Err(r.error))
  {
    if |es| == 0 then Ok({})
    else
      var init := Gather(es[..|es| - 1]);
      var e := es[|es| - 1];
      if init.Err? then
        assert es[..|es| - 1] <= es;
        init
      else if e.None? then init
      else if e.value.Err? then Err(e.value.error)
      else Ok(init.value + {e.value.value})
  }

  /** The loop fails exactly when some entry is an `Err`. */
  lemma {:induction false} GatherFails<T>(es: seq<Option<Result<T>>>)
    ensures Gather(es).Err? <==> exists k :: 0 <= k < |es| && es[k].Some? && es[k].value.Err?
  {
    if |es| > 0 {
      var init := es[..|es| - 1];
      GatherFails(init);
      assert forall k :: 0 <= k < |init| ==> init[k] == es[k];
    }
  }

  /** When the loop succeeds, it holds exactly the values of the `Ok` entries. */
  lemma {:induction false} GatherMembers<T>(es: seq<Option<Result<T>>>, x: T)
    requires Gather(es).Ok?
    ensures x in Gather(es).value <==> exists k :: 0 <= k < |es| && es[k] == Some(Ok(x))
  {
    if |es| > 0 {
      var init := es[..|es| - 1];
      GatherMembers(init, x);
      assert forall k :: 0 <= k < |init| ==> init[k] == es[k];
    }
  }

  /** The loop of `run` over `lines`: the ids gathered, or the first IndexError. */
  function Gathered(lines: seq<string>): (r: Result<set<string>>)
    ensures r.Err? ==> r.error == IndexError
  {
    Gather(Entries(lines))
  }

  /** It fails exactly when some non-comment line has no tab. */
  lemma GatheredFails(lines: seq<string>)
    ensures Gathered(lines).Err? <==> exists k :: 0 <= k < |lines| && !IsComment(lines[k]) && '\t' !in Strip(lines[k])
  {
    GatherFails(Entries(lines));
  }

  /** Otherwise an id is gathered exactly when it is the second field of a non-comment line. */
  lemma GatheredMembers(lines: seq<string>, x: string)
    requires Gathered(lines).Ok?
    ensures x in Gathered(lines).value <==> exists k :: 0 <= k < |lines| && !IsComment(lines[k]) && SecondField(lines[k]) == Ok(x)
  {
    GatherMembers(Entries(lines), x);
  }

  /** A comment line contributes nothing, whatever it holds. */
  lemma CommentIgnored(lines: seq<string>, line: string)
    requires IsComment(line)
    ensures Gathered(lines + [line]) == Gathered(lines)
  {
    assert Entries(lines + [line])[..|lines|] == Entries(lines);
  }

  /** `run`: the lines written, one per id, in the set's iteration order; the IndexError of
      the first non-comment line without a tab, before anything is written. */
  method Run(lines: seq<string>) returns (r: Result<seq<string>>)
    ensures r.Err? <==> Gathered(lines).Err?
    ensures r.Err? ==> r.error == IndexError
    ensures r.Ok? ==> forall x :: x in r.value <==> x in Gathered(lines).value
    ensures r.Ok? ==> forall i, j :: 0 <= i < j < |r.value| ==> r.value[i] != r.value[j]
  {
    var omimIds: set<string> := {};
    for k := 0 to |lines|
      invariant Gathered(lines[..k]) == Ok(omimIds)
    {
      assert Entries(lines[..k + 1])[..k] == Entries(lines[..k]);
      if IsComment(lines[k]) {
        continue;
      }
      var fields := Split(Strip(lines[k]), '\t');
      if |fields| < 2 {
        GatheredFails(lines);
        assert lines[k] == lines[..k + 1][k];
        return Err(IndexError);
      }
      omimIds := omimIds + {fields[1]};
    }
    assert lines[..|lines|] == lines;
    var out := Thesaurus.Enumerate(omimIds);
    return Ok(out);
  }
}
