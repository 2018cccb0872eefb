/** `mesh_formatter.py`: the MeSH ASCII file turned into `heading \t descriptor id` lines.
    The scan waits for the first `*NEWRECORD` line; from then on an `MH = ...` line sets the
    heading, a `UI = ...` line sets the identifier, and as soon as both are non-empty the pair
    is written and both are cleared. Lines are given without their terminator. */
module MeshFormatter {
  import opened Wrappers
  import opened Strings

  const NewRecord: string := "*NEWRECORD"

  /** The three variables of the loop. */
  datatype Scan = Scan(inrecord: bool, title: string, identifier: string)

  const Start: Scan := Scan(false, "", "")

  /** One written pair. */
  datatype Entry = Entry(title: string, identifier: string)

  /** The line written for an entry, without its terminator. */
  function Render(e: Entry): (r: string)
    ensures |r| == |e.title| + 1 + |e.identifier|
    ensures r[|e.title|] == '\t' && r[..|e.title|] == e.title && r[|e.title| + 1..] == e.identifier
  {
    e.title + "\t" + e.identifier
  }

  /** `line.strip().split("=")`. */
  function Parts(line: string): (r: seq<string>)
    ensures |r| >= 1
    ensures |r| >= 2 <==> '=' in Strip(line)
  {
    var s := Strip(line);
    if '=' in s then
      SplitSecond(s, '=');
      Split(s, '=')
    else
      Split(s, '=')
  }

  /** `parts[0].strip()`: the key of a line, the stripped text before its first `=`. */
  function Key(line: string): (r: string)
    ensures '=' !in r
  {
    Strip(Parts(line)[0])
  }

  predicate Keyed(line: string) {
    Key(line) == "MH" || Key(line) == "UI"
  }

  /** `parts[1].strip()`: the stripped text between the first and the second `=`, IndexError
      when the line has no `=`. */
  function Value(line: string): (r: Result<string>)
    ensures r.Err? <==> '=' !in Strip(line)
    ensures r.Err? ==> r.error == IndexError
    ensures r.Ok? ==> var s := Strip(line);
      |Before(s, '=')| < |s| && r.value == Strip(Before(s[|Before(s, '=')| + 1..], '='))
    ensures r.Ok? ==> '=' !in r.value
  {
    var parts := Parts(line);
    if '=' in Strip(line) then
      SplitSecond(Strip(line), '=');
      Ok(Strip(parts[1]))
    else
      Err(IndexError)
  }

  /** A field value as the loop stores it: stripped and free of `=`. */
  predicate Stripped(v: string) {
    '=' !in v && (|v| > 0 ==> !IsSpace(v[0]) && !IsSpace(v[|v| - 1]))
  }

  /** Between lines the heading and the identifier are stripped and never both non-empty. */
  predicate Tidy(st: Scan) {
    Stripped(st.title) && Stripped(st.identifier) && (st.title == "" || st.identifier == "")
  }

  /** A written pair: both fields non-empty and stripped. */
  predicate WellFormed(e: Entry) {
    |e.title| > 0 && |e.identifier| > 0 && Stripped(e.title) && Stripped(e.identifier)
  }

  /** What a line means to the loop. */
  datatype Kind =
    | Record                          // it holds `*NEWRECORD`
    | Heading(value: Result<string>)  // its key is `MH`
    | Ident(value: Result<string>)    // its key is `UI`
    | Other

  /** The value a key line carries is stripped. */
  predicate Clean(k: Kind) {
    (k.Heading? || k.Ident?) && k.value.Ok? ==> Stripped(k.value.value)
  }

  function Classify(line: string): (r: Kind)
    ensures r.Record? <==> Contains(line, NewRecord)
    ensures r.Heading? <==> !Contains(line, NewRecord) && Key(line) == "MH"
    ensures r.Ident? <==> !Contains(line, NewRecord) && Key(line) == "UI"
    ensures (r.Heading? || r.Ident?) ==> r.value == Value(line)
    ensures Clean(r)
  {
    if Contains(line, NewRecord) then Record
    else if Key(line) == "MH" then Heading(Value(line))
    else if Key(line) == "UI" then Ident(Value(line))
    else Other
  }

  /** One turn of the loop on a line of the given kind: the new variables and the pair it
      writes, if any. */
  function Advance(st: Scan, k: Kind): (r: Result<(Scan, Option<Entry>)>)
    // a `*NEWRECORD` line only sets `inrecord`, keeping whatever is pending
    ensures k.Record? ==> r == Ok((st.(inrecord := true), None))
    // before the first record nothing changes
    ensures !k.Record? && !st.inrecord ==> r == Ok((st, None))
    // the only failure: a key line without `=` inside a record
    ensures r.Err? <==> st.inrecord && (k.Heading? || k.Ident?) && k.value.Err?
    ensures r.Err? ==> r.error == k.value.error
    // `inrecord` never returns to false
    ensures r.Ok? ==> r.value.0.inrecord == (st.inrecord || k.Record?)
    // once a pair is complete it is written and both fields are cleared
    ensures r.Ok? && r.value.1.Some? ==> r.value.0 == Scan(true, "", "")
    ensures r.Ok? && Tidy(st) && Clean(k) ==> Tidy(r.value.0)
    ensures r.Ok? && Tidy(st) && Clean(k) && r.value.1.Some? ==> WellFormed(r.value.1.value)
  {
    if k.Record? then Ok((st.(inrecord := true), None))
    else if !st.inrecord then Ok((st, None))
    else if (k.Heading? || k.Ident?) && k.value.Err? then Err(k.value.error)
    else
      var title := if k.Heading? then k.value.value else st.title;
      var identifier := if k.Ident? then k.value.value else st.identifier;
      if title != "" && identifier != "" then
        Ok((Scan(true, "", ""), Some(Entry(title, identifier))))
      else
        Ok((Scan(true, title, identifier), None))
  }

  /** The result of the record does not depend on which key comes first: a heading and an
      identifier with non-empty values write the same single pair in either order. */
  lemma EitherOrder(t: string, i: string)
    requires t != "" && i != ""
    ensures var st := Scan(true, "", "");
            && Advance(st, Heading(Ok(t))) == Ok((Scan(true, t, ""), None))
            && Advance(Scan(true, t, ""), Ident(Ok(i))) == Ok((st, Some(Entry(t, i))))
            && Advance(st, Ident(Ok(i))) == Ok((Scan(true, "", i), None))
            && Advance(Scan(true, "", i), Heading(Ok(t))) == Ok((st, Some(Entry(t, i))))
  {
  }

  /** The loop over lines of the given kinds: the variables and the pairs written, or the
      error that stopped it. */
  function Fold(ks: seq<Kind>): Result<(Scan, seq<Entry>)> {
    if |ks| == 0 then Ok((Start, []))
    else
      var init := Fold(ks[..|ks| - 1]);
      if init.Err? then init
      else
        var step := Advance(init.value.0, ks[|ks| - 1]);
        if step.Err? then Err(step.error)
        else
          var written := if step.value.1.Some? then [step.value.1.value] else [];
          Ok((step.value.0, init.value.1 + written))
  }

  /** Before the first record nothing is written and nothing is remembered. */
  lemma {:induction false} FoldNoRecord(ks: seq<Kind>)
    requires forall k :: 0 <= k < |ks| ==> !ks[k].Record?
    ensures Fold(ks) == Ok((Start, []))
  {
    if |ks| > 0 {
      var init := ks[..|ks| - 1];
      assert forall k :: 0 <= k < |init| ==> init[k] == ks[k];
      FoldNoRecord(init);
      var none: seq<Entry> := [];
      assert none + none == none;
    }
  }

  lemma {:induction false} FoldInvariant(ks: seq<Kind>)
    requires forall k :: 0 <= k < |ks| ==> Clean(ks[k])
    requires Fold(ks).Ok?
    ensures Tidy(Fold(ks).value.0)
    ensures forall i :: 0 <= i < |Fold(ks).value.1| ==> WellFormed(Fold(ks).value.1[i])
    ensures Fold(ks).value.0.inrecord <==> exists k :: 0 <= k < |ks| && ks[k].Record?
  {
    if |ks| > 0 {
      var init := ks[..|ks| - 1];
      FoldInvariant(init);
      assert forall k :: 0 <= k < |init| ==> init[k] == ks[k];
    }
  }

  /** One more turn of the loop after `n` kinds. */
  lemma FoldStep(ks: seq<Kind>, n: nat)
    requires n < |ks| && Fold(ks[..n]).Ok?
    ensures var (st, written) := Fold(ks[..n]).value;
            var step := Advance(st, ks[n]);
            && (step.Err? ==> Fold(ks[..n + 1]) == Err(step.error))
            && (step.Ok? && step.value.1.None? ==> Fold(ks[..n + 1]) == Ok((step.value.0, written)))
            && (step.Ok? && step.value.1.Some? ==> Fold(ks[..n + 1]) == Ok((step.value.0, written + [step.value.1.value])))
  {
    assert ks[..n + 1][..n] == ks[..n];
    var written := Fold(ks[..n]).value.1;
    assert written + [] == written;
  }

  /** Once the loop has stopped on an error, reading more lines does not revive it. */
  lemma {:induction false} FoldErrorStays(ks: seq<Kind>, n: nat)
    requires n <= |ks| && Fold(ks[..n]).Err?
    ensures Fold(ks) == Fold(ks[..n])
    decreases |ks| - n
  {
    if n < |ks| {
      assert ks[..n + 1][..n] == ks[..n];
      FoldErrorStays(ks, n + 1);
    } else {
      assert ks[..n] == ks;
    }
  }

  /** The kind of every line. */
  function Kinds(lines: seq<string>): (r: seq<Kind>)
    ensures |r| == |lines|
    ensures forall k :: 0 <= k < |lines| ==> r[k] == Classify(lines[k])
  {
    seq(|lines|, k requires 0 <= k < |lines| => Classify(lines[k]))
  }

  /** The variables and the pairs written after the loop has read `lines`, or the error
      that stopped it. */
  function Scanned(lines: seq<string>): (r: Result<(Scan, seq<Entry>)>)
    ensures r.Err? ==> r.error == IndexError
  {
    var ks := Kinds(lines);
    var r := Fold(ks);
    if r.Err? then
      FoldFails(ks);
      r
    else r
  }

  /** The loop fails with the error of a key line without `=`, and only then. */
  lemma {:induction false} FoldFails(ks: seq<Kind>)
    ensures Fold(ks).Err? ==> exists k :: 0 <= k < |ks| && (ks[k].Heading? || ks[k].Ident?) && ks[k].value == Err(Fold(ks).error)
  {
    if |ks| > 0 {
      var init := ks[..|ks| - 1];
      FoldFails(init);
      assert forall k :: 0 <= k < |init| ==> init[k] == ks[k];
    }
  }

  /** Before the first `*NEWRECORD` line nothing is written and nothing is remembered. */
  lemma NothingBeforeRecord(lines: seq<string>)
    requires forall k :: 0 <= k < |lines| ==> !Contains(lines[k], NewRecord)
    ensures Scanned(lines) == Ok((Start, []))
  {
    FoldNoRecord(Kinds(lines));
  }

  /** Every pair written is well formed, no pair is left half-done between lines, and the
      scan is inside a record exactly when some line so far held `*NEWRECORD`. */
  lemma ScannedInvariant(lines: seq<string>)
    requires Scanned(lines).Ok?
    ensures Tidy(Scanned(lines).value.0)
    ensures forall i :: 0 <= i < |Scanned(lines).value.1| ==> WellFormed(Scanned(lines).value.1[i])
    ensures Scanned(lines).value.0.inrecord <==> exists k :: 0 <= k < |lines| && Contains(lines[k], NewRecord)
  {
    FoldInvariant(Kinds(lines));
  }

  /** Inside a record, a line other than `*NEWRECORD` that parses updates the field its
      kind names, and the pair is written once both fields are non-empty. */
  lemma AdvanceInRecord(st: Scan, k: Kind)
    requires st.inrecord && !k.Record? && ((k.Heading? || k.Ident?) ==> k.value.Ok?)
    ensures var t := if k.Heading? then k.value.value else st.title;
            var i := if k.Ident? then k.value.value else st.identifier;
            Advance(st, k) == if t != "" && i != "" then Ok((Scan(true, "", ""), Some(Entry(t, i))))
                              else Ok((Scan(true, t, i), None))
  {
  }

  /** The body of the loop for a line inside a record that does not hold `*NEWRECORD`. */
  method ReadField(title: string, identifier: string, line: string) returns (r: Result<(Scan, Option<Entry>)>)
    requires !Contains(line, NewRecord)
    ensures r == Advance(Scan(true, title, identifier), Classify(line))
  {
    var parts := Split(Strip(line), '=');
    var key := Strip(parts[0]);
    assert parts == Parts(line) && key == Key(line);
    ghost var kind := Classify(line);
    assert key == "MH" ==> kind == Heading(Value(line));
    assert key == "UI" ==> kind == Ident(Value(line));
    assert key != "MH" && key != "UI" ==> kind == Other;
    var t, i := title, identifier;
    if key == "MH" {
      if |parts| < 2 {
        return Err(IndexError);
      }
      t := Strip(parts[1]);
    } else if key == "UI" {
      if |parts| < 2 {
        return Err(IndexError);
      }
      i := Strip(parts[1]);
    }
    assert !kind.Record?;
    assert (kind.Heading? || kind.Ident?) ==> kind.value.Ok?;
    AdvanceInRecord(Scan(true, title, identifier), kind);
    if t != "" && i != "" {
      return Ok((Scan(true, "", ""), Some(Entry(t, i))));
    }
    return Ok((Scan(true, t, i), None));
  }

  /** `run`: the lines written, in order, or the IndexError of a key line without `=`. */
  method Run(lines: seq<string>) returns (r: Result<seq<string>>)
    ensures r.Err? <==> Scanned(lines).Err?
    ensures r.Err? ==> r.error == IndexError
    ensures r.Ok? ==> |r.value| == |Scanned(lines).value.1|
    ensures r.Ok? ==> forall i :: 0 <= i < |r.value| ==> r.value[i] == Render(Scanned(lines).value.1[i])
  {
    var inrecord := false;
    var title := "";
    var identifier := "";
    var out: seq<string> := [];
    ghost var written: seq<Entry> := [];
    ghost var ks := Kinds(lines);
    for k := 0 to |lines|
      invariant Fold(ks[..k]) == Ok((Scan(inrecord, title, identifier), written))
      invariant |out| == |written|
      invariant forall i :: 0 <= i < |out| ==> out[i] == Render(written[i])
    {
      FoldStep(ks, k);
      var line := lines[k];
      assert ks[k] == Classify(line);
      if Contains(line, NewRecord) {
        inrecord := true;
        continue;
      }
      if inrecord {
        var step := ReadField(title, identifier, line);
        if step.Err? {
          FoldErrorStays(ks, k + 1);
          return Err(IndexError);
        }
        var (st, e) := step.value;
        title, identifier := st.title, st.identifier;
        if e.Some? {
          out := out + [e.value.title + "\t" + e.value.identifier];
          written := written + [e.value];
        }
      }
    }
    assert ks[..|lines|] == ks;
    return Ok(out);
  }
}
