/** `writeFiles.py`: the records the two writers emit, in order. Each record stands for one
    tab-separated output line; the rendering of a float by `str` is not modelled. */
module WriteFiles {
  import opened Wrappers
  import opened Measures
  import opened SemanticSimilarities

  // ----- writeTriplet -----

  /** One line of the triplet file: two objects and their similarity. */
  type Triplet = (string, string, real)

  /** The cells `(i, j)` for `j` in `range(i, cols)`. */
  function RowCells(i: nat, cols: nat): (cs: seq<(nat, nat)>)
    ensures |cs| == if i <= cols then cols - i else 0
    ensures forall k :: 0 <= k < |cs| ==> cs[k] == (i, i + k)
  {
    seq(if i <= cols then cols - i else 0, k requires 0 <= k => (i, i + k))
  }

  /** The cells the two loops of `writeTriplet` visit in rows `0 .. rows - 1`, in order. */
  function UpperCells(rows: nat, cols: nat): seq<(nat, nat)> {
    if rows == 0 then [] else UpperCells(rows - 1, cols) + RowCells(rows - 1, cols)
  }

  /** The loops visit exactly the cells on or above the diagonal. */
  lemma {:induction false} UpperCellsMembers(rows: nat, cols: nat, i: nat, j: nat)
    ensures (i, j) in UpperCells(rows, cols) <==> i < rows && i <= j < cols
  {
    if rows > 0 {
      UpperCellsMembers(rows - 1, cols, i, j);
      var row := RowCells(rows - 1, cols);
      if i == rows - 1 && i <= j < cols {
        assert row[j - i] == (i, j);
      }
    }
  }

  /** Row-major order on cells. */
  predicate CellBefore(a: (nat, nat), b: (nat, nat)) {
    a.0 < b.0 || (a.0 == b.0 && a.1 < b.1)
  }

  predicate Sorted(cs: seq<(nat, nat)>) {
    forall p, q :: 0 <= p < q < |cs| ==> CellBefore(cs[p], cs[q])
  }

  /** The loops visit the cells in row-major order, hence each of them once. */
  lemma {:induction false} UpperCellsSorted(rows: nat, cols: nat)
    ensures Sorted(UpperCells(rows, cols))
  {
    if rows > 0 {
      UpperCellsSorted(rows - 1, cols);
      var init := UpperCells(rows - 1, cols);
      var cs := UpperCells(rows, cols);
      forall p | 0 <= p < |init|
        ensures init[p].0 < rows - 1
      {
        UpperCellsMembers(rows - 1, cols, init[p].0, init[p].1);
      }
    }
  }

  /** The value of cell `c`; the loops only visit cells inside the matrix, and a cell outside
      it reads as zero here. */
  function At(m: seq<seq<real>>, c: (nat, nat)): real {
    if c.0 < |m| && c.1 < |m[c.0]| then m[c.0][c.1] else 0.0
  }

  /** The cells of `cs` with a non-zero value, in order. */
  function Kept(m: seq<seq<real>>, cs: seq<(nat, nat)>): (r: seq<(nat, nat)>)
    ensures |r| <= |cs|
  {
    if |cs| == 0 then []
    else
      var c := cs[|cs| - 1];
      Kept(m, cs[..|cs| - 1]) + (if At(m, c) != 0.0 then [c] else [])
  }

  /** A cell is kept exactly when it is visited and its value is not zero. */
  lemma {:induction false} KeptMembers(m: seq<seq<real>>, cs: seq<(nat, nat)>, c: (nat, nat))
    ensures c in Kept(m, cs) <==> c in cs && At(m, c) != 0.0
  {
    if |cs| > 0 {
      var init := cs[..|cs| - 1];
      KeptMembers(m, init, c);
      assert c in cs <==> c in init || c == cs[|cs| - 1];
    }
  }

  /** The kept cells keep the order of the visit. */
  lemma {:induction false} KeptSorted(m: seq<seq<real>>, cs: seq<(nat, nat)>)
    requires Sorted(cs)
    ensures Sorted(Kept(m, cs))
  {
    if |cs| > 0 {
      var init := cs[..|cs| - 1];
      var last := cs[|cs| - 1];
      KeptSorted(m, init);
      var k0 := Kept(m, init);
      forall p | 0 <= p < |k0|
        ensures CellBefore(k0[p], last)
      {
        KeptMembers(m, init, k0[p]);
        var q :| 0 <= q < |init| && init[q] == k0[p];
      }
      if At(m, last) == 0.0 {
        assert Kept(m, cs) == k0;
      }
    }
  }

  /** The line of cell `c`. */
  function TripletOf(m: seq<seq<real>>, objects: seq<string>, c: (nat, nat)): Triplet
    requires c.0 < |objects| && c.1 < |objects|
  {
    (objects[c.0], objects[c.1], At(m, c))
  }

  /** The lines written for the cells `cs` in turn, and whether the loop got through them:
      a zero cell writes nothing, a non-zero one the objects of its row and column and its
      value, IndexError when either object is missing. */
  function Triplets(m: seq<seq<real>>, objects: seq<string>, cs: seq<(nat, nat)>): (seq<Triplet>, Result<()>)
  {
    if |cs| == 0 then ([], Ok(()))
    else Step(m, objects, Triplets(m, objects, cs[..|cs| - 1]), cs[|cs| - 1])
  }

  /** What visiting cell `c` does to the lines written so far. */
  function Step(m: seq<seq<real>>, objects: seq<string>, w: (seq<Triplet>, Result<()>), c: (nat, nat)): (seq<Triplet>, Result<()>) {
    if w.1.Err? || At(m, c) == 0.0 then w
    else if c.0 < |objects| && c.1 < |objects| then (w.0 + [TripletOf(m, objects, c)], w.1)
    else (w.0, Err(IndexError))
  }

  /** The writer fails exactly when a non-zero cell has no object for its row or column; when
      it does not, it writes one line per kept cell, in order. */
  lemma {:induction false} TripletsKept(m: seq<seq<real>>, objects: seq<string>, cs: seq<(nat, nat)>)
    ensures var (out, r) := Triplets(m, objects, cs);
      && (r.Err? ==> r.error == IndexError)
      && (r.Ok? <==> forall c :: c in Kept(m, cs) ==> c.0 < |objects| && c.1 < |objects|)
      && (r.Ok? ==> |out| == |Kept(m, cs)|)
      && (r.Ok? ==> forall k :: 0 <= k < |out| ==>
            Kept(m, cs)[k].0 < |objects| && Kept(m, cs)[k].1 < |objects| && out[k] == TripletOf(m, objects, Kept(m, cs)[k]))
  {
    if |cs| > 0 {
      var init := cs[..|cs| - 1];
      TripletsKept(m, objects, init);
      forall c | c in Kept(m, init)
        ensures c in Kept(m, cs)
      {
        KeptMembers(m, init, c);
        KeptMembers(m, cs, c);
      }
    }
  }

  /** The lines written depend only on the cells visited: two matrices that agree there give
      the same output. */
  lemma {:induction false} TripletsLocal(m: seq<seq<real>>, m': seq<seq<real>>, objects: seq<string>, cs: seq<(nat, nat)>)
    requires forall k :: 0 <= k < |cs| ==> At(m, cs[k]) == At(m', cs[k])
    ensures Triplets(m, objects, cs) == Triplets(m', objects, cs)
  {
    if |cs| > 0 {
      TripletsLocal(m, m', objects, cs[..|cs| - 1]);
    }
  }

  /** The cells of the first rows come first. */
  lemma {:induction false} UpperPrefix(a: nat, b: nat, cols: nat)
    requires a <= b
    ensures UpperCells(a, cols) <= UpperCells(b, cols)
  {
    if a < b {
      UpperPrefix(a, b - 1, cols);
    }
  }

  /** Once the writer has failed, later cells change nothing. */
  lemma {:induction false} TripletsStuck(m: seq<seq<real>>, objects: seq<string>, cs: seq<(nat, nat)>, ds: seq<(nat, nat)>)
    requires cs <= ds
    requires Triplets(m, objects, cs).1.Err?
    ensures Triplets(m, objects, ds) == Triplets(m, objects, cs)
  {
    if |ds| > |cs| {
      TripletsStuck(m, objects, cs, ds[..|ds| - 1]);
    } else {
      assert ds == cs;
    }
  }

  /** The output ignores the cells below the diagonal. */
  lemma LowerTriangleIgnored(m: seq<seq<real>>, m': seq<seq<real>>, objects: seq<string>, rows: nat, cols: nat)
    requires |m| == |m'| == rows && Rect(m, cols) && Rect(m', cols)
    requires forall i, j :: 0 <= i <= j < cols && i < rows ==> m[i][j] == m'[i][j]
    ensures Triplets(m, objects, UpperCells(rows, cols)) == Triplets(m', objects, UpperCells(rows, cols))
  {
    var cs := UpperCells(rows, cols);
    forall k | 0 <= k < |cs|
      ensures At(m, cs[k]) == At(m', cs[k])
    {
      UpperCellsMembers(rows, cols, cs[k].0, cs[k].1);
    }
    TripletsLocal(m, m', objects, cs);
  }

  /** One more cell. */
  lemma TripletsSnoc(m: seq<seq<real>>, objects: seq<string>, cs: seq<(nat, nat)>, c: (nat, nat))
    ensures Triplets(m, objects, cs + [c]) == Step(m, objects, Triplets(m, objects, cs), c)
  {
    assert (cs + [c])[..|cs|] == cs;
  }

  lemma AppendTakeSnoc<T>(a: seq<T>, b: seq<T>, k: nat)
    requires k < |b|
    ensures a + b[..k + 1] == (a + b[..k]) + [b[k]]
    ensures a + b[..k + 1] <= a + b
  {
    assert b[..k + 1] == b[..k] + [b[k]];
    assert a + b == (a + b[..k + 1]) + b[k + 1..];
  }

  /** Cell `(i, j)` extends the cells of row `i` visited so far by one. */
  lemma RowStep(m: seq<seq<real>>, objects: seq<string>, done: seq<(nat, nat)>, i: nat, j: nat, cols: nat)
    requires i <= j < cols
    ensures var row := RowCells(i, cols);
      && done + row[..j + 1 - i] <= done + row
      && Triplets(m, objects, done + row[..j + 1 - i]) == Step(m, objects, Triplets(m, objects, done + row[..j - i]), (i, j))
  {
    AppendTakeSnoc(done, RowCells(i, cols), j - i);
    TripletsSnoc(m, objects, done + RowCells(i, cols)[..j - i], (i, j));
  }

  /** Cell `(i, j)` of `writeTriplet`. */
  method WriteCell(perDisease: array2<real>, ghost m: seq<seq<real>>, objects: seq<string>, i: nat, j: nat, out: seq<Triplet>)
    returns (out': seq<Triplet>, r: Result<()>)
    requires i < perDisease.Length0 && j < perDisease.Length1
    requires m == Contents(perDisease)
    ensures (out', r) == Step(m, objects, (out, Ok(())), (i, j))
  {
    var v := perDisease[i, j];
    out', r := out, Ok(());
    if v != 0.0 {
      if i < |objects| && j < |objects| {
        out' := out + [(objects[i], objects[j], v)];
      } else {
        r := Err(IndexError);
      }
    }
  }

  /** Visiting the cells `(i, i) .. (i, j - 1)` of row `i`, starting from `w`. */
  function RowFold(m: seq<seq<real>>, objects: seq<string>, w: (seq<Triplet>, Result<()>), i: nat, j: nat): (seq<Triplet>, Result<()>)
    decreases j
  {
    if j <= i then w else Step(m, objects, RowFold(m, objects, w, i, j - 1), (i, j - 1))
  }

  /** Row `i` visited up to column `j`, after the rows before it, is the writer on those cells. */
  lemma {:induction false} RowFoldTriplets(m: seq<seq<real>>, objects: seq<string>, i: nat, j: nat, cols: nat)
    requires i <= j <= cols
    ensures RowFold(m, objects, Triplets(m, objects, UpperCells(i, cols)), i, j)
      == Triplets(m, objects, UpperCells(i, cols) + RowCells(i, cols)[..j - i])
  {
    var done := UpperCells(i, cols);
    if j == i {
      assert done + RowCells(i, cols)[..0] == done;
    } else {
      RowFoldTriplets(m, objects, i, j - 1, cols);
      RowStep(m, objects, done, i, j - 1, cols);
    }
  }

  /** Once the writer has failed, the rest of the row changes nothing. */
  lemma {:induction false} RowFoldStuck(m: seq<seq<real>>, objects: seq<string>, w: (seq<Triplet>, Result<()>), i: nat, a: nat, b: nat)
    requires i <= a <= b
    requires RowFold(m, objects, w, i, a).1.Err?
    ensures RowFold(m, objects, w, i, b) == RowFold(m, objects, w, i, a)
  {
    if a < b {
      RowFoldStuck(m, objects, w, i, a, b - 1);
    }
  }

  /** Row `i` visited in full, after the rows before it, is the writer on the first `i + 1` rows. */
  lemma RowFoldRow(m: seq<seq<real>>, objects: seq<string>, i: nat, cols: nat)
    requires i < cols
    ensures RowFold(m, objects, Triplets(m, objects, UpperCells(i, cols)), i, cols)
      == Triplets(m, objects, UpperCells(i + 1, cols))
  {
    RowFoldTriplets(m, objects, i, cols, cols);
    assert RowCells(i, cols)[..cols - i] == RowCells(i, cols);
  }

  /** The inner loop of `writeTriplet` over the columns `i .. cols - 1` of row `i`. */
  method WriteRowCells(perDisease: array2<real>, ghost m: seq<seq<real>>, objects: seq<string>, i: nat, out: seq<Triplet>)
    returns (out': seq<Triplet>, r: Result<()>)
    requires i < perDisease.Length0 && i < perDisease.Length1
    requires m == Contents(perDisease)
    ensures (out', r) == RowFold(m, objects, (out, Ok(())), i, perDisease.Length1)
  {
    var cols := perDisease.Length1;
    out', r := out, Ok(());
    var j: nat := i;
    while j < cols
      invariant i <= j <= cols
      invariant (out', Ok(())) == RowFold(m, objects, (out, Ok(())), i, j)
    {
      var o, e := WriteCell(perDisease, m, objects, i, j, out');
      if e.Err? {
        RowFoldStuck(m, objects, (out, Ok(())), i, j + 1, cols);
        return o, e;
      }
      out' := o;
      j := j + 1;
    }
  }

  /** Row `i` of `writeTriplet`, after the rows before it wrote `out`. */
  method WriteRow(perDisease: array2<real>, ghost m: seq<seq<real>>, objects: seq<string>, i: nat, out: seq<Triplet>)
    returns (out': seq<Triplet>, r: Result<()>)
    requires i < perDisease.Length0
    requires m == Contents(perDisease)
    requires (out, Ok(())) == Triplets(m, objects, UpperCells(i, perDisease.Length1))
    ensures (out', r) == Triplets(m, objects, UpperCells(i + 1, perDisease.Length1))
  {
    var cols := perDisease.Length1;
    if cols <= i {
      assert RowCells(i, cols) == [];
      assert UpperCells(i + 1, cols) == UpperCells(i, cols) + [] == UpperCells(i, cols);
      return out, Ok(());
    }
    RowFoldRow(m, objects, i, cols);
    out', r := WriteRowCells(perDisease, m, objects, i, out);
  }

  /** `writeTriplet`: the lines for the cells on or above the diagonal of `perDisease` with a
      non-zero value, row by row; IndexError at the first such cell with no object, after the
      lines before it. */
  method WriteTriplet(perDisease: array2<real>, objects: seq<string>) returns (out: seq<Triplet>, r: Result<()>)
    ensures (out, r) == Triplets(Contents(perDisease), objects, UpperCells(perDisease.Length0, perDisease.Length1))
  {
    out := [];
    r := Ok(());
    for i := 0 to perDisease.Length0
      invariant (out, r) == Triplets(Contents(perDisease), objects, UpperCells(i, perDisease.Length1))
      invariant r == Ok(())
    {
      out, r := WriteRow(perDisease, Contents(perDisease), objects, i, out);
      if r.Err? {
        UpperPrefix(i + 1, perDisease.Length0, perDisease.Length1);
        TripletsStuck(Contents(perDisease), objects, UpperCells(i + 1, perDisease.Length1), UpperCells(perDisease.Length0, perDisease.Length1));
        return;
      }
      assert r.value == ();
    }
  }

  // ----- writeSelectedDescriptor -----

  /** One line of the selected-descriptor file: a key of the log, then the three fields of one
      of its entries. */
  type SelectedLine = (string, string, string, real)

  /** The lines of one key, one per entry, in the entries' order. */
  function KeyLines(key: string, entries: seq<LcaEntry>): (ls: seq<SelectedLine>)
    ensures |ls| == |entries|
    ensures forall k :: 0 <= k < |entries| ==> ls[k] == (key, entries[k].0, entries[k].1, entries[k].2)
  {
    seq(|entries|, k requires 0 <= k < |entries| => (key, entries[k].0, entries[k].1, entries[k].2))
  }

  /** The lines for the keys `keys`, key after key. */
  function SelectedLines(keys: seq<string>, values: map<string, seq<LcaEntry>>): seq<SelectedLine> {
    if |keys| == 0 then []
    else SelectedLines(keys[..|keys| - 1], values) + KeyLines(keys[|keys| - 1], GetLca(values, keys[|keys| - 1]))
  }

  /** A line is written exactly when it is a key followed by one of that key's entries. */
  lemma {:induction false} SelectedMembers(keys: seq<string>, values: map<string, seq<LcaEntry>>, l: SelectedLine)
    requires forall k :: k in keys ==> k in values
    ensures l in SelectedLines(keys, values) <==> l.0 in keys && (l.1, l.2, l.3) in values[l.0]
  {
    if |keys| > 0 {
      var init := keys[..|keys| - 1];
      var key := keys[|keys| - 1];
      SelectedMembers(init, values, l);
      assert l.0 in keys <==> l.0 in init || l.0 == key;
      var es := values[key];
      if l.0 == key && (l.1, l.2, l.3) in es {
        var k :| 0 <= k < |es| && es[k] == (l.1, l.2, l.3);
        assert KeyLines(key, es)[k] == l;
      }
    }
  }

  /** The lines of the keys of `keys` come first, in the same order. */
  lemma {:induction false} SelectedPrefix(keys: seq<string>, values: map<string, seq<LcaEntry>>, n: nat)
    requires n <= |keys|
    ensures SelectedLines(keys[..n], values) <= SelectedLines(keys, values)
  {
    if n < |keys| {
      SelectedPrefix(keys[..|keys| - 1], values, n);
      assert keys[..|keys| - 1][..n] == keys[..n];
    } else {
      assert keys[..n] == keys;
    }
  }

  /** The inner loop: the lines of one key, appended to `out`. */
  method WriteKey(key: string, entries: seq<LcaEntry>, out: seq<SelectedLine>) returns (out': seq<SelectedLine>)
    ensures out' == out + KeyLines(key, entries)
  {
    out' := out;
    for j := 0 to |entries|
      invariant out' == out + KeyLines(key, entries)[..j]
    {
      var elements := entries[j];
      assert KeyLines(key, entries)[..j + 1] == KeyLines(key, entries)[..j] + [(key, elements.0, elements.1, elements.2)];
      out' := out' + [(key, elements.0, elements.1, elements.2)];
    }
    assert KeyLines(key, entries)[..|entries|] == KeyLines(key, entries);
  }

  /** `writeSelectedDescriptor`: for each key of `values`, in the dictionary's order `keys`, one
      line per entry of its list. */
  method WriteSelectedDescriptor(keys: seq<string>, values: map<string, seq<LcaEntry>>) returns (out: seq<SelectedLine>)
    requires forall k :: k in keys <==> k in values
    ensures out == SelectedLines(keys, values)
  {
    out := [];
    for i := 0 to |keys|
      invariant out == SelectedLines(keys[..i], values)
    {
      var key := keys[i];
      assert keys[..i + 1][..i] == keys[..i];
      out := WriteKey(key, values[key], out);
    }
    assert keys[..|keys|] == keys;
  }
}
