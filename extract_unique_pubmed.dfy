/** `extract_unique_pubmed.py`: the PubMed ids of an OMIM-to-PubMed mapping file, each once.
    A line is `OMIM id \t PubMed id \t PubMed id ...`; lines are given without their
    terminator. */
module ExtractUniquePubmed {
  import opened Strings
  import Thesaurus

  /** The ids one line contributes: its tab-separated fields after the first. */
  function LineIds(line: string): seq<string> {
    Tail(Split(Strip(line), '\t'))
  }

  /** The ids of every line, line by line. */
  function Fields(lines: seq<string>): (r: seq<seq<string>>)
    ensures |r| == |lines|
    ensures forall k :: 0 <= k < |lines| ==> r[k] == LineIds(lines[k])
  {
    seq(|lines|, k requires 0 <= k < |lines| => LineIds(lines[k]))
  }

  /** The union of the elements of `parts`, taken in order. */
  function Unions<T>(parts: seq<seq<T>>): set<T> {
    if |parts| == 0 then {}
    else Unions(parts[..|parts| - 1]) + Elems(parts[|parts| - 1])
  }

  lemma {:induction false} UnionsMembers<T>(parts: seq<seq<T>>, x: T)
    ensures x in Unions(parts) <==> exists k :: 0 <= k < |parts| && x in parts[k]
  {
    if |parts| > 0 {
      var init := parts[..|parts| - 1];
      UnionsMembers(init, x);
      assert forall k :: 0 <= k < |init| ==> init[k] == parts[k];
    }
  }

  /** `pubmeds` after the loop has read `lines`: `pubmeds |= set(fields[1:])` line by line. */
  function Collected(lines: seq<string>): set<string> {
    Unions(Fields(lines))
  }

  /** An id is collected exactly when some line lists it after its first field. */
  lemma CollectedMembers(lines: seq<string>, x: string)
    ensures x in Collected(lines) <==> exists k :: 0 <= k < |lines| && x in LineIds(lines[k])
  {
    UnionsMembers(Fields(lines), x);
  }

  /** A line with a single field (an empty line among them) adds nothing. */
  lemma SingleFieldLine(lines: seq<string>, line: string)
    requires |Split(Strip(line), '\t')| == 1
    ensures Collected(lines + [line]) == Collected(lines)
  {
    var parts := Fields(lines + [line]);
    assert parts[..|lines|] == Fields(lines);
    assert parts[|lines|] == LineIds(line) == [];
    assert Elems(parts[|lines|]) == {};
  }

  /** The set collected depends only on which lines occur, not on their order or repetition. */
  lemma OrderIndependent(a: seq<string>, b: seq<string>)
    requires forall l :: l in a <==> l in b
    ensures Collected(a) == Collected(b)
  {
    forall x ensures x in Collected(a) <==> x in Collected(b) {
      CollectedMembers(a, x);
      CollectedMembers(b, x);
      if x in Collected(a) {
        var k :| 0 <= k < |a| && x in LineIds(a[k]);
        assert a[k] in b;
      }
      if x in Collected(b) {
        var k :| 0 <= k < |b| && x in LineIds(b[k]);
        assert b[k] in a;
      }
    }
  }

  /** `run`: the lines written, one per collected id, in the set's iteration order. */
  method Run(lines: seq<string>) returns (out: seq<string>)
    ensures forall x :: x in out <==> x in Collected(lines)
    ensures forall i, j :: 0 <= i < j < |out| ==> out[i] != out[j]
    ensures |out| == |Collected(lines)|
  {
    var pubmeds: set<string> := {};
    for k := 0 to |lines|
      invariant pubmeds == Collected(lines[..k])
    {
      assert Fields(lines[..k + 1])[..k] == Fields(lines[..k]);
      pubmeds := pubmeds + Elems(LineIds(lines[k]));
    }
    assert lines[..|lines|] == lines;
    out := Thesaurus.Enumerate(pubmeds);
  }
}
