/** `MeSHParser` (`mesh_parser.py`): the MeSH ASCII descriptor file read into a
    `MeSHThesaurus`. The line loop gathers one record at a time (UI, MN, MH and ENTRY lines,
    closed by a blank line); the records are then linked into the graph: each tree to the
    root node of each of its categories, each other node to the node at each of its parent
    positions. Lines are given without their terminator. */
module MeshParser {
  import opened Wrappers
  import opened Strings
  import opened Thesaurus

  // ----- the line loop -----

  /** A record as the loop hands it to the thesaurus. */
  datatype Descriptor = Descriptor(
    name: string,
    identifier: string,
    positions: seq<string>,
    synonyms: seq<string>,
    isTree: bool)

  /** The variables of the loop: `name`, `identifier`, `tree_positions`, `synonyms` and
      `is_a_tree`. */
  datatype Acc = Acc(
    name: string,
    identifier: string,
    positions: seq<string>,
    synonyms: seq<string>,
    isTree: bool)

  const Empty: Acc := Acc("", "", [], [], false)

  /** The text after the first `c`: `s.split(c, 1)[1]`. */
  function After(s: string, c: char): (r: string)
    requires c in s
    ensures s == Before(s, c) + [c] + r
  {
    var b := Before(s, c);
    assert |b| < |s|;
    assert s == b + [c] + s[|b| + 1..];
    s[|b| + 1..]
  }

  /** `line.split()[2]`: the third whitespace-separated token, IndexError when there is none. */
  function Third(s: string): (r: Result<string>)
    ensures r.Err? <==> |SplitWs(s)| < 3
    ensures r.Err? ==> r.error == IndexError
    ensures r.Ok? ==> r.value == SplitWs(s)[2] && |r.value| > 0 && NoSpace(r.value)
  {
    var tokens := SplitWs(s);
    if |tokens| < 3 then Err(IndexError) else Ok(Strip(tokens[2]))
  }

  /** What a stripped line means to the loop. */
  datatype LineKind =
    | Blank
    | UiLine(token: Result<string>)     // `UI = ...`
    | MnLine(token: Result<string>)     // `MN = ...`
    | MhLine(heading: string)           // `MH = ...`
    | EntryLine(synonym: Option<string>) // `ENTRY = ...` or `PRINT ENTRY = ...`
    | Ignored

  /** The tokens a kind carries are non-empty and hold no whitespace. */
  predicate Clean(k: LineKind) {
    (k.UiLine? || k.MnLine?) && k.token.Ok? ==> |k.token.value| > 0 && NoSpace(k.token.value)
  }

  /** `line.split('=')[1].strip()` on an `MH = ` line: the stripped text between the first
      and the second `=`. */
  function HeadingOf(s: string): (r: string)
    requires "MH = " <= s
    ensures '=' in s && r == Strip(Before(After(s, '='), '='))
  {
    assert s[3] == '=';
    SplitSecond(s, '=');
    Strip(Split(s, '=')[1])
  }

  /** The synonym of an `ENTRY = ` line: `l = line.split("=", 1)[1].strip()`, then the text
      before the first `|` of `l`, and none when `l` holds no `|`. */
  function SynonymOf(s: string): (r: Option<string>)
    requires "ENTRY = " <= s || "PRINT ENTRY = " <= s
    ensures '=' in s && var l := Strip(After(s, '='));
      r == if '|' in l then Some(Before(l, '|')) else None
  {
    assert s[6] == '=' || s[12] == '=';
    var l := Strip(After(s, '='));
    if '|' in l then Some(Split(l, '|')[0]) else None
  }

  /** What a stripped line means to the loop. */
  function KindOf(s: string): (r: LineKind)
    ensures r.Blank? <==> s == ""
    // the identifier and the position are the third token of their line
    ensures r.UiLine? ==> "UI = " <= s && r.token == Third(s)
    ensures r.MnLine? ==> "MN = " <= s && r.token == Third(s)
    ensures r.MhLine? ==> "MH = " <= s && r.heading == HeadingOf(s)
    ensures r.EntryLine? ==> ("ENTRY = " <= s || "PRINT ENTRY = " <= s) && r.synonym == SynonymOf(s)
    ensures Clean(r)
  {
    if |s| == 0 then Blank
    else if "UI = " <= s then UiLine(Third(s))
    else if "MN = " <= s then MnLine(Third(s))
    else if "MH = " <= s then MhLine(HeadingOf(s))
    else if "ENTRY = " <= s || "PRINT ENTRY = " <= s then EntryLine(SynonymOf(s))
    else Ignored
  }

  /** `line = line.strip()`, then its kind. */
  function Classify(line: string): (r: LineKind)
    ensures Clean(r)
  {
    KindOf(Strip(line))
  }

  /** `[i for i in tree_positions if i[0] in categories]`. */
  function InCategories(positions: seq<string>, cats: set<string>): (r: seq<string>)
    ensures |r| <= |positions|
    ensures forall p :: p in r <==> p in positions && |p| > 0 && [p[0]] in cats
  {
    if |positions| == 0 then []
    else
      var init := InCategories(positions[..|positions| - 1], cats);
      var p := positions[|positions| - 1];
      assert forall q :: q in positions <==> q in positions[..|positions| - 1] || q == p;
      if |p| > 0 && [p[0]] in cats then init + [p] else init
  }

  /** One turn of the loop: the new variables and the record a blank line closes, if
      any; the IndexError of a UI or MN line with fewer than three tokens. */
  function Advance(acc: Acc, k: LineKind, cats: set<string>): (r: Result<(Acc, Option<Descriptor>)>)
    ensures r.Err? <==> (k.UiLine? || k.MnLine?) && k.token.Err?
    ensures r.Err? ==> r.error == k.token.error
    // a blank line closes the record: it is kept when a position survives the category
    // filter, and the variables start afresh either way
    ensures k.Blank? ==> r.Ok? && r.value.0 == Empty
    ensures k.Blank? ==> var kept := InCategories(acc.positions, cats);
      r.value.1 == if |kept| > 0 then Some(Descriptor(acc.name, acc.identifier, kept, acc.synonyms, acc.isTree)) else None
    ensures !k.Blank? && r.Ok? ==> r.value.1.None?
    // a position is appended, and the record becomes a tree when the position has no `.`
    ensures k.MnLine? && r.Ok? ==> r.value.0 == acc.(positions := acc.positions + [k.token.value], isTree := acc.isTree || '.' !in k.token.value)
    ensures k.UiLine? && r.Ok? ==> r.value.0 == acc.(identifier := k.token.value)
    ensures k.MhLine? ==> r == Ok((acc.(name := k.heading), None))
    ensures k.EntryLine? ==> r == Ok((acc.(synonyms := acc.synonyms + (if k.synonym.Some? then [k.synonym.value] else [])), None))
    ensures k.Ignored? ==> r == Ok((acc, None))
  {
    match k
    case Blank =>
      var kept := InCategories(acc.positions, cats);
      Ok((Empty, if |kept| > 0 then Some(Descriptor(acc.name, acc.identifier, kept, acc.synonyms, acc.isTree)) else None))
    case UiLine(token) =>
      if token.Err? then Err(token.error) else Ok((acc.(identifier := token.value), None))
    case MnLine(token) =>
      if token.Err? then Err(token.error)
      else Ok((acc.(isTree := acc.isTree || '.' !in token.value, positions := acc.positions + [token.value]), None))
    case MhLine(heading) => Ok((acc.(name := heading), None))
    case EntryLine(synonym) =>
      Ok((acc.(synonyms := acc.synonyms + (if synonym.Some? then [synonym.value] else [])), None))
    case Ignored => Ok((acc, None))
  }

  /** The loop over lines of the given kinds: its variables and the records closed so far. */
  function Fold(ks: seq<LineKind>, cats: set<string>): Result<(Acc, seq<Descriptor>)> {
    if |ks| == 0 then Ok((Empty, []))
    else
      var init := Fold(ks[..|ks| - 1], cats);
      if init.Err? then init
      else
        var step := Advance(init.value.0, ks[|ks| - 1], cats);
        if step.Err? then Err(step.error)
        else Ok((step.value.0, init.value.1 + if step.value.1.Some? then [step.value.1.value] else []))
  }

  /** One more turn of the loop after `n` kinds. */
  lemma FoldStep(ks: seq<LineKind>, n: nat, cats: set<string>, acc: Acc, out: seq<Descriptor>, step: Result<(Acc, Option<Descriptor>)>)
    requires n < |ks| && Fold(ks[..n], cats) == Ok((acc, out)) && step == Advance(acc, ks[n], cats)
    ensures step.Err? ==> Fold(ks[..n + 1], cats) == Err(step.error)
    ensures step.Ok? && step.value.1.None? ==> Fold(ks[..n + 1], cats) == Ok((step.value.0, out))
    ensures step.Ok? && step.value.1.Some? ==> Fold(ks[..n + 1], cats) == Ok((step.value.0, out + [step.value.1.value]))
  {
    assert ks[..n + 1][..n] == ks[..n];
    assert out + [] == out;
  }

  lemma {:induction false} FoldErrorStays(ks: seq<LineKind>, n: nat, cats: set<string>)
    requires n <= |ks| && Fold(ks[..n], cats).Err?
    ensures Fold(ks, cats) == Fold(ks[..n], cats)
    decreases |ks| - n
  {
    if n < |ks| {
      assert ks[..n + 1][..n] == ks[..n];
      FoldErrorStays(ks, n + 1, cats);
    } else {
      assert ks[..n] == ks;
    }
  }

  /** A record being gathered is a tree exactly when one of its positions, whatever its
      category, has no `.`; its positions are tokens. */
  predicate Gathering(acc: Acc) {
    && (acc.isTree <==> exists i :: 0 <= i < |acc.positions| && '.' !in acc.positions[i])
    && (forall i :: 0 <= i < |acc.positions| ==> |acc.positions[i]| > 0)
  }

  /** A record closed by a blank line: positions all in the selected categories, at
      least one of them. */
  predicate Kept(d: Descriptor, cats: set<string>) {
    && |d.positions| > 0
    && forall i :: 0 <= i < |d.positions| ==> |d.positions[i]| > 0 && [d.positions[i][0]] in cats
  }

  lemma {:induction false} FoldGathering(ks: seq<LineKind>, cats: set<string>)
    requires forall i :: 0 <= i < |ks| ==> Clean(ks[i])
    requires Fold(ks, cats).Ok?
    ensures Gathering(Fold(ks, cats).value.0)
  {
    if |ks| > 0 {
      var init := ks[..|ks| - 1];
      assert forall i :: 0 <= i < |init| ==> init[i] == ks[i];
      FoldGathering(init, cats);
      var acc := Fold(init, cats).value.0;
      var k := ks[|ks| - 1];
      if k.MnLine? {
        var p := k.token.value;
        var ps := acc.positions + [p];
        assert forall i :: 0 <= i < |acc.positions| ==> ps[i] == acc.positions[i];
        assert ps[|acc.positions|] == p;
        assert Gathering(Acc(acc.name, acc.identifier, ps, acc.synonyms, acc.isTree || '.' !in p));
      } else if k.Blank? {
        assert Gathering(Empty);
      }
    }
  }

  lemma {:induction false} FoldKept(ks: seq<LineKind>, cats: set<string>)
    requires Fold(ks, cats).Ok?
    ensures forall i :: 0 <= i < |Fold(ks, cats).value.1| ==> Kept(Fold(ks, cats).value.1[i], cats)
  {
    if |ks| > 0 {
      var init := ks[..|ks| - 1];
      FoldKept(init, cats);
      var acc := Fold(init, cats).value.0;
      if ks[|ks| - 1].Blank? {
        var kept := InCategories(acc.positions, cats);
        assert forall i :: 0 <= i < |kept| ==> kept[i] in kept;
      }
    }
  }

  /** The kind of every line. */
  function Kinds(lines: seq<string>): (r: seq<LineKind>)
    ensures |r| == |lines|
    ensures forall i :: 0 <= i < |lines| ==> r[i] == Classify(lines[i])
  {
    seq(|lines|, i requires 0 <= i < |lines| => Classify(lines[i]))
  }

  /** The record the file ends with when no blank line closes it: its positions are not
      filtered and its synonyms are not set. */
  function Final(acc: Acc): seq<Descriptor> {
    if |acc.positions| > 0 then [Descriptor(acc.name, acc.identifier, acc.positions, [], acc.isTree)] else []
  }

  /** The records the file yields, in order, for the selected categories `cats`. */
  function Records(lines: seq<string>, cats: set<string>): (r: Result<seq<Descriptor>>)
    ensures r.Err? ==> r.error == IndexError
  {
    var f := Fold(Kinds(lines), cats);
    if f.Err? then
      FoldFails(Kinds(lines), cats);
      Err(f.error)
    else Ok(f.value.1 + Final(f.value.0))
  }

  /** The loop fails only on a UI or MN line with fewer than three tokens. */
  lemma {:induction false} FoldFails(ks: seq<LineKind>, cats: set<string>)
    ensures Fold(ks, cats).Err? ==> exists i :: 0 <= i < |ks| && (ks[i].UiLine? || ks[i].MnLine?) && ks[i].token == Err(Fold(ks, cats).error)
  {
    if |ks| > 0 {
      var init := ks[..|ks| - 1];
      FoldFails(init, cats);
      assert forall i :: 0 <= i < |init| ==> init[i] == ks[i];
    }
  }

  /** Every record but a final unclosed one lies in the selected categories; every record
      has a position, and is a tree exactly when one of its gathered positions has no `.`. */
  lemma RecordsShape(lines: seq<string>, cats: set<string>)
    requires Records(lines, cats).Ok?
    ensures var f := Fold(Kinds(lines), cats).value;
      && Records(lines, cats).value == f.1 + Final(f.0)
      && (forall i :: 0 <= i < |f.1| ==> Kept(f.1[i], cats))
      && |Final(f.0)| <= 1
      && (|Final(f.0)| == 1 ==>
            && Final(f.0)[0].positions == f.0.positions && Final(f.0)[0].synonyms == []
            && (Final(f.0)[0].isTree <==> exists i :: 0 <= i < |f.0.positions| && '.' !in f.0.positions[i]))
  {
    FoldGathering(Kinds(lines), cats);
    FoldKept(Kinds(lines), cats);
  }

  /** The body of the loop for a line of the given kind. */
  method Turn(acc: Acc, kind: LineKind, cats: set<string>) returns (r: Result<(Acc, Option<Descriptor>)>)
    ensures r == Advance(acc, kind, cats)
  {
    match kind {
      case Blank =>
        var kept := InCategories(acc.positions, cats);
        if |kept| > 0 {
          return Ok((Empty, Some(Descriptor(acc.name, acc.identifier, kept, acc.synonyms, acc.isTree))));
        }
        return Ok((Empty, None));
      case UiLine(identifier) =>
        if identifier.Err? {
          return Err(identifier.error);
        }
        return Ok((acc.(identifier := identifier.value), None));
      case MnLine(position) =>
        if position.Err? {
          return Err(position.error);
        }
        var isTree := acc.isTree || !('.' in position.value);
        return Ok((acc.(isTree := isTree, positions := acc.positions + [position.value]), None));
      case MhLine(name) =>
        return Ok((acc.(name := name), None));
      case EntryLine(synonym) =>
        if synonym.Some? {
          return Ok((acc.(synonyms := acc.synonyms + [synonym.value]), None));
        }
        assert acc.synonyms + [] == acc.synonyms;
        return Ok((acc, None));
      case Ignored =>
        return Ok((acc, None));
    }
  }

  lemma RecordsOfFold(lines: seq<string>, cats: set<string>, acc: Acc, out: seq<Descriptor>)
    requires Fold(Kinds(lines)[..|lines|], cats) == Ok((acc, out))
    ensures Records(lines, cats) == Ok(out + Final(acc))
  {
    assert Kinds(lines)[..|lines|] == Kinds(lines);
  }

  /** One turn of the line loop: the variables after line `k`, and the record list with
      the record that line closes, if any. */
  method ParseLine(lines: seq<string>, k: nat, cats: set<string>, acc: Acc, out: seq<Descriptor>)
    returns (r: Result<(Acc, seq<Descriptor>)>)
    requires k < |lines| && Fold(Kinds(lines)[..k], cats) == Ok((acc, out))
    ensures r.Err? ==> Fold(Kinds(lines)[..k + 1], cats) == Err(IndexError)
    ensures r.Ok? ==> Fold(Kinds(lines)[..k + 1], cats) == Ok(r.value)
  {
    ghost var ks := Kinds(lines);
    assert ks[k] == Classify(lines[k]);
    var step := Turn(acc, KindOf(Strip(lines[k])), cats);
    FoldStep(ks, k, cats, acc, out, step);
    if step.Err? {
      assert step.error == IndexError;
      return Err(IndexError);
    }
    var (acc', closed) := step.value;
    if closed.Some? {
      return Ok((acc', out + [closed.value]));
    }
    return Ok((acc', out));
  }

  /** The line loop of `__parse_MeSH_file`, with the thesaurus writes of each record left to
      `AddRecords`: the records, or the IndexError of a UI or MN line without a third token. */
  method ParseRecords(lines: seq<string>, cats: set<string>) returns (r: Result<seq<Descriptor>>)
    ensures r == Records(lines, cats)
  {
    var acc := Empty;
    var out: seq<Descriptor> := [];
    ghost var ks := Kinds(lines);
    for k := 0 to |lines|
      invariant Fold(ks[..k], cats) == Ok((acc, out))
    {
      var next := ParseLine(lines, k, cats, acc, out);
      if next.Err? {
        FoldErrorStays(ks, k + 1, cats);
        return Err(IndexError);
      }
      acc, out := next.value.0, next.value.1;
    }
    RecordsOfFold(lines, cats, acc, out);
    if |acc.positions| != 0 {
      out := out + [Descriptor(acc.name, acc.identifier, acc.positions, [], acc.isTree)];
    } else {
      assert out + Final(acc) == out;
    }
    return Ok(out);
  }

  // ----- the thesaurus the records go into -----

  /** `available_categories`: the name of each of the sixteen MeSH categories, by letter. */
  function CategoryName(letter: char): Option<string> {
    match letter
    case 'A' => Some("Anatomy")
    case 'B' => Some("Organisms")
    case 'C' => Some("Diseases")
    case 'D' => Some("Chemicals and Drugs")
    case 'E' => Some("Analytical, Diagnostic and Therapeutic Techniques and Equipment")
    case 'F' => Some("Psychiatry and Psychology")
    case 'G' => Some("Phenomena and Processes")
    case 'H' => Some("Disciplines and Occupations")
    case 'I' => Some("Anthropology, Education, Sociology and Social Phenomena")
    case 'J' => Some("Technology, Industry, Agriculture")
    case 'K' => Some("Humanities")
    case 'L' => Some("Information Science")
    case 'M' => Some("Named Groups")
    case 'N' => Some("Health Care")
    case 'V' => Some("Publication Characteristics")
    case 'Z' => Some("Geographicals")
    case _ => None
  }

  /** `cat in available_categories`: a category id is one of the sixteen letters, `A` to `N`,
      `V` or `Z`. */
  predicate Available(c: string) {
    |c| == 1 && ('A' <= c[0] <= 'N' || c[0] == 'V' || c[0] == 'Z')
  }

  /** The ids that are available are exactly the ids with a name. */
  lemma AvailableNamed(c: string)
    ensures Available(c) <==> |c| == 1 && CategoryName(c[0]).Some?
  {
  }

  /** `available_categories[cat]`. */
  function NameOf(c: string): string
    requires Available(c)
  {
    AvailableNamed(c);
    CategoryName(c[0]).value
  }

  /** The identifier, name and only position of the generic root. */
  const Generic: string := "GEN"

  /** A one-letter position other than `.` is its own only tree and category. */
  lemma Letter(c: string)
    requires |c| == 1 && c[0] != '.'
    ensures TreeOf(c) == c && TreesOf([c]) == {c} && CategoriesOf({c}) == {c}
  {
    assert c == [c[0]] && c[1..] == "";
    assert [c][..0] == [];
  }

  /** The root node `__create_root_nodes` makes for category `c`: named after the category, with
      the letter as identifier and only position, dummy. */
  function RootNode(c: string): Node
    requires Available(c)
  {
    Node(NameOf(c), c, [], [c], {c}, {c}, true, {}, {})
  }

  /** That is the node `MeSHThesaurusNode(name, cat, [cat])` makes once set dummy: the letter
      is its own only tree and category. */
  lemma RootNodeCreated(c: string)
    requires Available(c)
    ensures RootNode(c) == Created(NameOf(c), c, [c]).(dummy := true)
  {
    Letter(c);
  }

  /** The node `__add_generic_node` makes: dummy, with `GEN` as its one tree, so its one
      category is `G`, the letter of "Phenomena and Processes". */
  function GenericNode(): Node {
    Node(Generic, Generic, [], [Generic], {Generic}, {"G"}, true, {}, {})
  }

  lemma GenericNodeCreated()
    ensures |TreeOf(Generic)| > 0
    ensures GenericNode() == Created(Generic, Generic, [Generic]).(dummy := true)
  {
    assert '.' !in Generic;
    BeforeAbsent(Generic, '.');
    assert [Generic][..0] == [];
    assert TreesOf([Generic]) == {Generic};
    assert [Generic[0]] == "G";
    CategoriesOfAdd({}, Generic);
  }


  /** `s[..k + 1]` is `s[..k]` and one more entry. */
  lemma TakeSnoc<T>(s: seq<T>, k: nat)
    requires k < |s|
    ensures s[..k + 1] == s[..k] + [s[k]]
    ensures s[..k + 1][..k] == s[..k]
  {
  }

  /** The index of the last entry of `xs` equal to `x`; -1 when there is none. */
  function LastIndex(xs: seq<string>, x: string): (i: int)
    ensures -1 <= i < |xs|
    ensures i >= 0 ==> xs[i] == x
    ensures forall j :: i < j < |xs| ==> xs[j] != x
  {
    if |xs| == 0 then -1
    else if xs[|xs| - 1] == x then |xs| - 1
    else LastIndex(xs[..|xs| - 1], x)
  }

  /** The index of the last entry of `keys` that holds `k`; -1 when none does. */
  function LastHolder(keys: seq<seq<string>>, k: string): (i: int)
    ensures -1 <= i < |keys|
    ensures i >= 0 ==> k in keys[i]
    ensures forall j :: i < j < |keys| ==> k !in keys[j]
  {
    if |keys| == 0 then -1
    else if k in keys[|keys| - 1] then |keys| - 1
    else LastHolder(keys[..|keys| - 1], k)
  }

  // ----- the thesaurus tables, as values -----

  /** The fields of a `MeSHThesaurus`: its nodes, the tables by identifier (`node_by_id`) and
      by position, the category names, the trees with their names, the category of each tree,
      the trees of each category and the node identifiers of each category. */
  datatype Tables = Tables(
    nodes: seq<Node>,
    ids: map<string, NodeRef>,
    pos: map<string, NodeRef>,
    names: map<string, string>,
    trees: map<string, string>,
    cbt: map<string, string>,
    tbc: map<string, set<string>>,
    nbc: map<string, set<string>>)

  ghost function TablesOf(t: MeSHThesaurus): Tables
    reads t
  {
    Tables(t.nodes, t.nodeById, t.nodeByPosition, t.categories, t.trees, t.categoryByTree,
           t.treesByCategory, t.nodesByCategory)
  }

  /** The tables of a new `MeSHThesaurus`. */
  const NoTables: Tables := Tables([], map[], map[], map[], map[], map[], map[], map[])

  /** Every identifier and every position the thesaurus indexes leads to a node that has it. */
  ghost predicate Indexed(a: Tables) {
    && (forall k :: k in a.ids ==> a.ids[k] < |a.nodes| && a.nodes[a.ids[k]].identifier == k)
    && (forall p :: p in a.pos ==> a.pos[p] < |a.nodes| && p in a.nodes[a.pos[p]].positions)
  }

  /** Registering node `h` under its own positions keeps the position table sound. */
  lemma RegisteredIndexed(ns: seq<Node>, m: map<string, NodeRef>, h: NodeRef)
    requires h < |ns|
    requires forall p :: p in m ==> m[p] < |ns| && p in ns[m[p]].positions
    ensures forall p :: p in Registered(m, ns[h].positions, h) ==>
      Registered(m, ns[h].positions, h)[p] < |ns| && p in ns[Registered(m, ns[h].positions, h)[p]].positions
  {
    forall p | p in Registered(m, ns[h].positions, h) {
      RegisteredMembers(m, ns[h].positions, h, p);
    }
  }

  // ----- the root nodes -----

  /** One turn of `__create_root_nodes`: the root node of `c` appended, registered under its
      letter as identifier and as position, and the category recorded by name. */
  function WithRoot(a: Tables, c: string): Tables
    requires Available(c)
  {
    var h := |a.nodes|;
    a.(nodes := a.nodes + [RootNode(c)], ids := a.ids[c := h], pos := a.pos[c := h], names := a.names[c := NameOf(c)])
  }

  /** `__create_root_nodes` for the ids `cats`, in order. */
  function WithRoots(a: Tables, cats: seq<string>): Tables
    requires forall i :: 0 <= i < |cats| ==> Available(cats[i])
  {
    if |cats| == 0 then a else WithRoot(WithRoots(a, cats[..|cats| - 1]), cats[|cats| - 1])
  }

  lemma WithRootsSnoc(a: Tables, cats: seq<string>, k: nat)
    requires k < |cats| && forall i :: 0 <= i <= k ==> Available(cats[i])
    ensures WithRoots(a, cats[..k + 1]) == WithRoot(WithRoots(a, cats[..k]), cats[k])
  {
    TakeSnoc(cats, k);
  }

  /** The root nodes are appended in order; each id is registered, as identifier and as
      position, to the root of its last occurrence, and recorded under its category name;
      every other key keeps its entry, and the tree tables are untouched. */
  lemma {:induction false} WithRootsShape(a: Tables, cats: seq<string>, c: string)
    requires forall i :: 0 <= i < |cats| ==> Available(cats[i])
    ensures var r := WithRoots(a, cats);
      && |r.nodes| == |a.nodes| + |cats|
      && r.nodes[..|a.nodes|] == a.nodes
      && (forall i :: 0 <= i < |cats| ==> r.nodes[|a.nodes| + i] == RootNode(cats[i]))
      && (c in r.ids <==> c in a.ids || c in cats)
      && (c in r.pos <==> c in a.pos || c in cats)
      && (c in r.names <==> c in a.names || c in cats)
      && (c in cats ==> r.ids[c] == r.pos[c] == |a.nodes| + LastIndex(cats, c) && r.names[c] == NameOf(c))
      && (c !in cats && c in a.ids ==> r.ids[c] == a.ids[c])
      && (c !in cats && c in a.pos ==> r.pos[c] == a.pos[c])
      && (c !in cats && c in a.names ==> r.names[c] == a.names[c])
      && r.(nodes := a.nodes, ids := a.ids, pos := a.pos, names := a.names) == a
  {
    WithRootsNodes(a, cats);
    WithRootsKeys(a, cats, c);
  }

  lemma {:induction false} WithRootsNodes(a: Tables, cats: seq<string>)
    requires forall i :: 0 <= i < |cats| ==> Available(cats[i])
    ensures var r := WithRoots(a, cats);
      && |r.nodes| == |a.nodes| + |cats|
      && r.nodes[..|a.nodes|] == a.nodes
      && (forall i :: 0 <= i < |cats| ==> r.nodes[|a.nodes| + i] == RootNode(cats[i]))
      && r.(nodes := a.nodes, ids := a.ids, pos := a.pos, names := a.names) == a
  {
    if |cats| > 0 {
      var init := cats[..|cats| - 1];
      WithRootsNodes(a, init);
      var r0 := WithRoots(a, init);
      assert (r0.nodes + [RootNode(cats[|cats| - 1])])[..|a.nodes|] == r0.nodes[..|a.nodes|];
    }
  }

  lemma {:induction false} WithRootsKeys(a: Tables, cats: seq<string>, c: string)
    requires forall i :: 0 <= i < |cats| ==> Available(cats[i])
    ensures var r := WithRoots(a, cats);
      && (c in r.ids <==> c in a.ids || c in cats)
      && (c in r.pos <==> c in a.pos || c in cats)
      && (c in r.names <==> c in a.names || c in cats)
      && (c in cats ==> r.ids[c] == r.pos[c] == |a.nodes| + LastIndex(cats, c) && r.names[c] == NameOf(c))
      && (c !in cats && c in a.ids ==> r.ids[c] == a.ids[c])
      && (c !in cats && c in a.pos ==> r.pos[c] == a.pos[c])
      && (c !in cats && c in a.names ==> r.names[c] == a.names[c])
  {
    if |cats| > 0 {
      var init, last := cats[..|cats| - 1], cats[|cats| - 1];
      WithRootsKeys(a, init, c);
      WithRootsNodes(a, init);
      var r0 := WithRoots(a, init);
      assert WithRoots(a, cats) == WithRoot(r0, last);
      assert c in cats <==> c in init || c == last;
      if c == last {
        assert LastIndex(cats, c) == |cats| - 1;
      } else {
        assert LastIndex(cats, c) == LastIndex(init, c);
      }
    }
  }

  /** The root nodes keep the tables sound. */
  lemma {:induction false} WithRootsIndexed(a: Tables, cats: seq<string>)
    requires forall i :: 0 <= i < |cats| ==> Available(cats[i])
    requires Indexed(a)
    ensures Indexed(WithRoots(a, cats))
  {
    if |cats| > 0 {
      var init := cats[..|cats| - 1];
      WithRootsIndexed(a, init);
      var r0 := WithRoots(a, init);
      var r := WithRoot(r0, cats[|cats| - 1]);
      assert forall h :: 0 <= h < |r0.nodes| ==> r.nodes[h] == r0.nodes[h];
    }
  }

  /** One turn of `__create_root_nodes`. */
  method AddRoot(t: MeSHThesaurus, c: string)
    requires t.Valid() && Available(c)
    modifies t`nodes, t`nodeById, t`nodeByPosition, t`categories
    ensures t.Valid()
    ensures TablesOf(t) == WithRoot(old(TablesOf(t)), c)
  {
    Letter(c);
    RootNodeCreated(c);
    ghost var a := TablesOf(t);
    var made := t.NewNode(NameOf(c), c, [c]);
    assert made.Ok?;
    var h := made.value;
    assert TablesOf(t) == a.(nodes := a.nodes + [Created(NameOf(c), c, [c])]);
    ghost var b := TablesOf(t);
    t.SetDummy(h, true);
    assert t.nodes == a.nodes + [RootNode(c)];
    assert TablesOf(t) == b.(nodes := a.nodes + [RootNode(c)]);
    ghost var d := TablesOf(t);
    t.AddCategory(c, NameOf(c));
    assert TablesOf(t) == d.(names := a.names[c := NameOf(c)]);
    ghost var e := TablesOf(t);
    RegisteredOne(t.nodeByPosition, c, h);
    t.AddNode(h);
    assert TablesOf(t) == e.(ids := a.ids[c := h], pos := a.pos[c := h]);
  }

  /** `__create_root_nodes`: KeyError on an id that is not one of the sixteen, after the
      earlier ones are added. */
  method CreateRootNodes(t: MeSHThesaurus, cats: seq<string>) returns (r: Result<()>)
    requires t.Valid()
    modifies t`nodes, t`nodeById, t`nodeByPosition, t`categories
    ensures t.Valid()
    ensures r.Ok? <==> forall i :: 0 <= i < |cats| ==> Available(cats[i])
    ensures r.Err? ==> r.error == KeyError
    ensures r.Ok? ==> TablesOf(t) == WithRoots(old(TablesOf(t)), cats)
  {
    for k := 0 to |cats|
      invariant t.Valid()
      invariant forall i :: 0 <= i < k ==> Available(cats[i])
      invariant TablesOf(t) == WithRoots(old(TablesOf(t)), cats[..k])
    {
      var c := cats[k];
      if !Available(c) {
        return Err(KeyError);
      }
      WithRootsSnoc(old(TablesOf(t)), cats, k);
      AddRoot(t, c);
    }
    assert cats[..|cats|] == cats;
    r := Ok(());
  }

  // ----- the generic root -----

  /** The first half of `__add_generic_node`: the node `GEN` appended, made dummy and
      registered under `GEN` as identifier and position, and `GEN` recorded as a category named
      `GEN`. */
  function WithGeneric(a: Tables): Tables {
    var h := |a.nodes|;
    a.(nodes := a.nodes + [GenericNode()], ids := a.ids[Generic := h], pos := a.pos[Generic := h], names := a.names[Generic := Generic])
  }

  lemma WithGenericIndexed(a: Tables)
    requires Indexed(a)
    ensures Indexed(WithGeneric(a))
  {
    var r := WithGeneric(a);
    assert forall h :: 0 <= h < |a.nodes| ==> r.nodes[h] == a.nodes[h];
  }

  method NewGenericNode(t: MeSHThesaurus) returns (g: NodeRef)
    requires t.Valid()
    modifies t`nodes, t`nodeById, t`nodeByPosition, t`categories
    ensures t.Valid()
    ensures g == |old(t.nodes)|
    ensures TablesOf(t) == WithGeneric(old(TablesOf(t)))
  {
    GenericNodeCreated();
    ghost var a := TablesOf(t);
    var made := t.NewNode(Generic, Generic, [Generic]);
    assert made.Ok?;
    g := made.value;
    assert TablesOf(t) == a.(nodes := a.nodes + [Created(Generic, Generic, [Generic])]);
    ghost var b := TablesOf(t);
    t.SetDummy(g, true);
    assert t.nodes == a.nodes + [GenericNode()];
    assert TablesOf(t) == b.(nodes := a.nodes + [GenericNode()]);
    ghost var c := TablesOf(t);
    t.AddCategory(Generic, Generic);
    assert TablesOf(t) == c.(names := a.names[Generic := Generic]);
    ghost var d := TablesOf(t);
    RegisteredOne(t.nodeByPosition, Generic, g);
    t.AddNode(g);
    assert TablesOf(t) == d.(ids := a.ids[Generic := g], pos := a.pos[Generic := g]);
  }

  // ----- the records -----

  /** A record the thesaurus accepts: every position has a non-empty first segment (else
      `MeSHThesaurusNode` raises IndexError), and so does the identifier of a tree (else
      `add_tree` does). */
  predicate Addable(d: Descriptor) {
    && (forall i :: 0 <= i < |d.positions| ==> |TreeOf(d.positions[i])| > 0)
    && (d.isTree ==> |TreeOf(d.identifier)| > 0)
  }

  /** The node a record becomes: made from its name, identifier and positions, given its
      synonyms, and dummy exactly when it is a tree. */
  function RecordNode(d: Descriptor): Node
    requires Addable(d)
  {
    Created(d.name, d.identifier, d.positions).(synonyms := d.synonyms, dummy := d.isTree)
  }

  /** The category `add_tree` files a tree under: the first character of its first segment. */
  function TreeCategory(id: string): string
    requires |TreeOf(id)| > 0
  {
    [TreeOf(id)[0]]
  }

  /** A defaultdict read: the set filed under `c`, empty when there is none. */
  function Filed(m: map<string, set<string>>, c: string): set<string> {
    if c in m then m[c] else {}
  }

  /** Lines 104-109 on the tables: the record's node appended and registered under its
      identifier and each of its positions, and, for a tree, the tree recorded by name and
      filed under its category. */
  function WithRecord(a: Tables, d: Descriptor): Tables
    requires Addable(d)
  {
    var h := |a.nodes|;
    var added := a.(nodes := a.nodes + [RecordNode(d)], ids := a.ids[d.identifier := h], pos := Registered(a.pos, d.positions, h));
    if d.isTree then
      var c := TreeCategory(d.identifier);
      added.(trees := a.trees[d.identifier := d.name], cbt := a.cbt[d.identifier := c], tbc := a.tbc[c := Filed(a.tbc, c) + {d.identifier}])
    else added
  }

  /** The thesaurus writes of the line loop for the records `ds`, in order. */
  function WithRecords(a: Tables, ds: seq<Descriptor>): Tables
    requires forall i :: 0 <= i < |ds| ==> Addable(ds[i])
  {
    if |ds| == 0 then a else WithRecord(WithRecords(a, ds[..|ds| - 1]), ds[|ds| - 1])
  }

  lemma WithRecordsSnoc(a: Tables, ds: seq<Descriptor>, k: nat)
    requires k < |ds| && forall i :: 0 <= i <= k ==> Addable(ds[i])
    ensures WithRecords(a, ds[..k + 1]) == WithRecord(WithRecords(a, ds[..k]), ds[k])
  {
    TakeSnoc(ds, k);
  }

  lemma WithRecordIndexed(a: Tables, d: Descriptor)
    requires Addable(d) && Indexed(a)
    ensures Indexed(WithRecord(a, d))
  {
    var r := WithRecord(a, d);
    assert forall h :: 0 <= h < |a.nodes| ==> r.nodes[h] == a.nodes[h];
    RegisteredIndexed(r.nodes, a.pos, |a.nodes|);
  }

  /** Adding records keeps the tables sound. */
  lemma {:induction false} WithRecordsIndexed(a: Tables, ds: seq<Descriptor>)
    requires forall i :: 0 <= i < |ds| ==> Addable(ds[i])
    requires Indexed(a)
    ensures Indexed(WithRecords(a, ds))
  {
    if |ds| > 0 {
      WithRecordsIndexed(a, ds[..|ds| - 1]);
      WithRecordIndexed(WithRecords(a, ds[..|ds| - 1]), ds[|ds| - 1]);
    }
  }

  /** Lines 104-109 (and 133-137 for the final record, whose synonyms are empty, so setting
      them changes nothing): the node made, given its synonyms, made dummy and recorded with
      `add_tree` when a tree, then registered; IndexError when the record is not addable. */
  method AddRecord(t: MeSHThesaurus, d: Descriptor) returns (r: Result<()>)
    requires t.Valid()
    modifies t`nodes, t`nodeById, t`nodeByPosition, t`trees, t`treesByCategory, t`categoryByTree
    ensures t.Valid()
    ensures r.Ok? <==> Addable(d)
    ensures r.Err? ==> r.error == IndexError
    ensures r.Ok? ==> TablesOf(t) == WithRecord(old(TablesOf(t)), d)
  {
    var made := t.NewNode(d.name, d.identifier, d.positions);
    if made.Err? {
      return Err(IndexError);
    }
    var h := made.value;
    t.SetSynonyms(h, d.synonyms);
    if d.isTree {
      t.SetDummy(h, true);
      var filed := t.AddTree(d.identifier, d.name);
      if filed.Err? {
        return Err(IndexError);
      }
    }
    assert t.nodes == old(t.nodes) + [RecordNode(d)];
    t.AddNode(h);
    r := Ok(());
  }

  /** The thesaurus writes of the line loop, record by record; IndexError at the first record
      that is not addable. */
  method AddRecords(t: MeSHThesaurus, ds: seq<Descriptor>) returns (r: Result<()>)
    requires t.Valid()
    modifies t`nodes, t`nodeById, t`nodeByPosition, t`trees, t`treesByCategory, t`categoryByTree
    ensures t.Valid()
    ensures r.Ok? <==> forall i :: 0 <= i < |ds| ==> Addable(ds[i])
    ensures r.Err? ==> r.error == IndexError
    ensures r.Ok? ==> TablesOf(t) == WithRecords(old(TablesOf(t)), ds)
  {
    for k := 0 to |ds|
      invariant t.Valid()
      invariant forall i :: 0 <= i < k ==> Addable(ds[i])
      invariant TablesOf(t) == WithRecords(old(TablesOf(t)), ds[..k])
    {
      var added := AddRecord(t, ds[k]);
      if added.Err? {
        return Err(IndexError);
      }
      WithRecordsSnoc(old(TablesOf(t)), ds, k);
    }
    assert ds[..|ds|] == ds;
    r := Ok(());
  }

  // ----- links -----

  /** `node.add_parent(parent)` followed by `parent.add_child(node)`, on the node list. */
  function AddLink(ns: seq<Node>, child: NodeRef, parent: NodeRef): (r: seq<Node>)
    requires child < |ns| && parent < |ns|
  {
    var ns1 := ns[child := ns[child].(parents := ns[child].parents + {parent})];
    ns1[parent := ns1[parent].(children := ns1[parent].children + {child})]
  }

  /** One link, both ways: `child` gets `parent` as a parent and `parent` gets `child` as a
      child. The two updates touch different sets, so the order the source makes them in
      does not matter. */
  method Link(t: MeSHThesaurus, child: NodeRef, parent: NodeRef)
    requires t.Valid() && child < |t.nodes| && parent < |t.nodes|
    modifies t`nodes
    ensures t.Valid()
    ensures t.nodes == AddLink(old(t.nodes), child, parent)
  {
    t.AddParent(child, parent);
    t.AddChild(parent, child);
  }

  /** `after` is `before` with the links `edges` (pairs `(child, parent)`) added both ways: the
      nodes are otherwise unchanged, a node's parents are its old ones and those the edges give
      it, and likewise its children. */
  ghost predicate Linked(before: seq<Node>, after: seq<Node>, edges: set<(NodeRef, NodeRef)>) {
    && |after| == |before|
    && (forall i :: 0 <= i < |before| ==> after[i] == before[i].(parents := after[i].parents, children := after[i].children))
    && (forall i, p :: 0 <= i < |before| ==> (p in after[i].parents <==> p in before[i].parents || (i, p) in edges))
    && (forall i, c :: 0 <= i < |before| ==> (c in after[i].children <==> c in before[i].children || (c, i) in edges))
  }

  lemma LinkedNone(ns: seq<Node>)
    ensures Linked(ns, ns, {})
  {
  }

  /** Adding one more link. */
  lemma LinkedStep(base: seq<Node>, ns: seq<Node>, edges: set<(NodeRef, NodeRef)>, child: NodeRef, parent: NodeRef)
    requires Linked(base, ns, edges) && child < |ns| && parent < |ns|
    ensures Linked(base, AddLink(ns, child, parent), edges + {(child, parent)})
  {
  }

  /** Links added in two rounds. */
  lemma LinkedTrans(a: seq<Node>, b: seq<Node>, c: seq<Node>, e1: set<(NodeRef, NodeRef)>, e2: set<(NodeRef, NodeRef)>)
    requires Linked(a, b, e1) && Linked(b, c, e2)
    ensures Linked(a, c, e1 + e2)
  {
  }

  /** The links making the node of each id of `cs` a child of `g`. */
  ghost function Below(ids: map<string, NodeRef>, cs: set<string>, g: NodeRef): set<(NodeRef, NodeRef)> {
    set c | c in cs && c in ids :: (ids[c], g)
  }

  /** The links making `h` a child of the node of each id of `cs`. */
  ghost function Above(ids: map<string, NodeRef>, h: NodeRef, cs: set<string>): set<(NodeRef, NodeRef)> {
    set c | c in cs && c in ids :: (h, ids[c])
  }

  /** The loop of `__add_generic_node`: the node of each id of `cs` linked as a child of `g`;
      KeyError on an id naming no node. */
  method LinkBelow(t: MeSHThesaurus, cs: set<string>, g: NodeRef) returns (r: Result<()>)
    requires t.Valid() && g < |t.nodes|
    modifies t`nodes
    ensures t.Valid()
    ensures r.Ok? <==> forall c :: c in cs ==> c in t.nodeById
    ensures r.Err? ==> r.error == KeyError
    ensures r.Ok? ==> Linked(old(t.nodes), t.nodes, Below(t.nodeById, cs, g))
  {
    var ks := Enumerate(cs);
    ghost var done: set<string> := {};
    LinkedNone(t.nodes);
    for k := 0 to |ks|
      invariant t.Valid() && |t.nodes| == |old(t.nodes)|
      invariant forall c :: c in done <==> c in ks[..k]
      invariant forall c :: c in done ==> c in t.nodeById
      invariant Linked(old(t.nodes), t.nodes, Below(t.nodeById, done, g))
    {
      var found := t.GetNode(ks[k]);
      if found.Err? {
        assert ks[k] in cs;
        return Err(KeyError);
      }
      var h := found.value;
      LinkedStep(old(t.nodes), t.nodes, Below(t.nodeById, done, g), h, g);
      assert Below(t.nodeById, done + {ks[k]}, g) == Below(t.nodeById, done, g) + {(h, g)};
      Link(t, h, g);
      TakeSnoc(ks, k);
      done := done + {ks[k]};
    }
    assert ks[..|ks|] == ks;
    assert done == cs;
    r := Ok(());
  }

  /** The inner loop of every tree: `h` linked as a child of the node of each id of `cs`;
      KeyError on an id naming no node. */
  method LinkAbove(t: MeSHThesaurus, h: NodeRef, cs: set<string>) returns (r: Result<()>)
    requires t.Valid() && h < |t.nodes|
    modifies t`nodes
    ensures t.Valid()
    ensures r.Ok? <==> forall c :: c in cs ==> c in t.nodeById
    ensures r.Err? ==> r.error == KeyError
    ensures r.Ok? ==> Linked(old(t.nodes), t.nodes, Above(t.nodeById, h, cs))
  {
    var ks := Enumerate(cs);
    ghost var done: set<string> := {};
    LinkedNone(t.nodes);
    for k := 0 to |ks|
      invariant t.Valid() && |t.nodes| == |old(t.nodes)|
      invariant forall c :: c in done <==> c in ks[..k]
      invariant forall c :: c in done ==> c in t.nodeById
      invariant Linked(old(t.nodes), t.nodes, Above(t.nodeById, h, done))
    {
      var found := t.GetNode(ks[k]);
      if found.Err? {
        assert ks[k] in cs;
        return Err(KeyError);
      }
      var p := found.value;
      LinkedStep(old(t.nodes), t.nodes, Above(t.nodeById, h, done), h, p);
      assert Above(t.nodeById, h, done + {ks[k]}) == Above(t.nodeById, h, done) + {(h, p)};
      Link(t, h, p);
      TakeSnoc(ks, k);
      done := done + {ks[k]};
    }
    assert ks[..|ks|] == ks;
    assert done == cs;
    r := Ok(());
  }

  /** `__add_generic_node`: the node `GEN` added, then linked as the parent of the node of
      every category id the thesaurus then holds, `GEN` itself included; KeyError on a
      category id naming no node. */
  method AddGenericNode(t: MeSHThesaurus) returns (r: Result<()>)
    requires t.Valid()
    modifies t`nodes, t`nodeById, t`nodeByPosition, t`categories
    ensures t.Valid()
    ensures TablesOf(t).(nodes := WithGeneric(old(TablesOf(t))).nodes) == WithGeneric(old(TablesOf(t)))
    ensures r.Ok? <==> forall c :: c in t.categories ==> c in t.nodeById
    ensures r.Err? ==> r.error == KeyError
    ensures r.Ok? ==> Linked(WithGeneric(old(TablesOf(t))).nodes, t.nodes, Below(t.nodeById, t.categories.Keys, |old(t.nodes)|))
  {
    var g := NewGenericNode(t);
    r := LinkBelow(t, t.categories.Keys, g);
  }

  // ----- trees under their categories -----

  /** The categories of node `h` (none when there is no such node). */
  function CategoriesAt(ns: seq<Node>, h: NodeRef): set<string> {
    if h < |ns| then ns[h].categories else {}
  }

  /** Every tree id of `keys` names a node, and so does every category of that node. */
  ghost predicate TreesResolve(ns: seq<Node>, ids: map<string, NodeRef>, keys: set<string>) {
    forall x :: x in keys ==> x in ids && forall c :: c in CategoriesAt(ns, ids[x]) ==> c in ids
  }

  /** Lines 140-146: the node of each tree id of `keys` made a child of the node of each of its
      categories. */
  ghost function TreeEdges(ns: seq<Node>, ids: map<string, NodeRef>, keys: set<string>): set<(NodeRef, NodeRef)> {
    set x, c | x in keys && x in ids && c in CategoriesAt(ns, ids[x]) && c in ids :: (ids[x], ids[c])
  }

  lemma TreeEdgesAdd(ns: seq<Node>, ids: map<string, NodeRef>, keys: set<string>, x: string)
    requires x in ids
    ensures TreeEdges(ns, ids, keys + {x}) == TreeEdges(ns, ids, keys) + Above(ids, ids[x], CategoriesAt(ns, ids[x]))
  {
  }

  /** Linking keeps every node's categories. */
  lemma LinkedCategories(before: seq<Node>, after: seq<Node>, edges: set<(NodeRef, NodeRef)>, h: NodeRef)
    requires Linked(before, after, edges)
    ensures CategoriesAt(after, h) == CategoriesAt(before, h)
  {
    if h < |before| {
      assert after[h] == before[h].(parents := after[h].parents, children := after[h].children);
    }
  }

  /** Lines 140-146: every tree linked below the root node of each of its categories; KeyError
      on a tree or a category naming no node. */
  method LinkTrees(t: MeSHThesaurus) returns (r: Result<()>)
    requires t.Valid()
    modifies t`nodes
    ensures t.Valid()
    ensures r.Ok? <==> TreesResolve(old(t.nodes), t.nodeById, t.trees.Keys)
    ensures r.Err? ==> r.error == KeyError
    ensures r.Ok? ==> Linked(old(t.nodes), t.nodes, TreeEdges(old(t.nodes), t.nodeById, t.trees.Keys))
  {
    var ks := Enumerate(t.trees.Keys);
    ghost var done: set<string> := {};
    LinkedNone(t.nodes);
    for k := 0 to |ks|
      invariant t.Valid() && |t.nodes| == |old(t.nodes)|
      invariant forall x :: x in done <==> x in ks[..k]
      invariant TreesResolve(old(t.nodes), t.nodeById, done)
      invariant Linked(old(t.nodes), t.nodes, TreeEdges(old(t.nodes), t.nodeById, done))
    {
      var x := ks[k];
      var found := t.GetNode(x);
      if found.Err? {
        assert x in t.trees;
        return Err(KeyError);
      }
      var h := found.value;
      ghost var mid := t.nodes;
      LinkedCategories(old(t.nodes), mid, TreeEdges(old(t.nodes), t.nodeById, done), h);
      var linked := LinkAbove(t, h, t.nodes[h].categories);
      if linked.Err? {
        assert x in t.trees;
        return Err(KeyError);
      }
      LinkedTrans(old(t.nodes), mid, t.nodes, TreeEdges(old(t.nodes), t.nodeById, done), Above(t.nodeById, h, mid[h].categories));
      TreeEdgesAdd(old(t.nodes), t.nodeById, done, x);
      TakeSnoc(ks, k);
      done := done + {x};
    }
    assert ks[..|ks|] == ks;
    assert done == t.trees.Keys;
    r := Ok(());
  }

  // ----- nodes under their parent positions -----

  /** `'.'.join(position.split('.')[0:-1]).strip()`. */
  function ParentPosition(p: string): string {
    var segs := Split(p, '.');
    Strip(Join(segs[..|segs| - 1], "."))
  }

  /** The parent position is the position with its last segment removed (then stripped). */
  lemma ParentOfChild(a: string, b: string)
    requires '.' !in b
    ensures ParentPosition(a + "." + b) == Strip(a)
  {
    SplitAppend(a, b, '.');
    var segs := Split(a + "." + b, '.');
    assert segs[..|segs| - 1] == Split(a, '.');
  }

  /** A position of one segment has the empty position as parent. */
  lemma ParentOfTop(p: string)
    requires '.' !in p
    ensures ParentPosition(p) == ""
  {
    assert Split(p, '.')[..0] == [];
  }

  /** The positions the third pass links node `h` by: all of them for a node that is not
      dummy, none for a dummy (category roots, `GEN` and trees). */
  function LinkedPositions(ns: seq<Node>, h: NodeRef): seq<string> {
    if h < |ns| && !ns[h].dummy then ns[h].positions else []
  }

  /** The links making `h` a child of the node at the parent of each position of `ps` that
      has one. */
  ghost function ParentEdges(pos: map<string, NodeRef>, h: NodeRef, ps: seq<string>): set<(NodeRef, NodeRef)> {
    set p | p in ps && ParentPosition(p) in pos :: (h, pos[ParentPosition(p)])
  }

  /** Every position the third pass visits for the identifiers of `keys` has a node at its
      parent position. */
  ghost predicate PositionsResolve(ns: seq<Node>, ids: map<string, NodeRef>, pos: map<string, NodeRef>, keys: set<string>) {
    forall x, p :: x in keys && x in ids && p in LinkedPositions(ns, ids[x]) ==> ParentPosition(p) in pos
  }

  /** Lines 149-156: the node of each identifier of `keys` that is not dummy made a child of
      the node at each of its parent positions. */
  ghost function PositionEdges(ns: seq<Node>, ids: map<string, NodeRef>, pos: map<string, NodeRef>, keys: set<string>): set<(NodeRef, NodeRef)> {
    set x, e | x in keys && x in ids && e in ParentEdges(pos, ids[x], LinkedPositions(ns, ids[x])) :: e
  }

  lemma PositionEdgesAdd(ns: seq<Node>, ids: map<string, NodeRef>, pos: map<string, NodeRef>, keys: set<string>, x: string)
    requires x in ids
    ensures PositionEdges(ns, ids, pos, keys + {x}) == PositionEdges(ns, ids, pos, keys) + ParentEdges(pos, ids[x], LinkedPositions(ns, ids[x]))
  {
    PositionEdgesGrow(ns, ids, pos, keys, x);
    PositionEdgesAdded(ns, ids, pos, keys, x);
  }

  lemma PositionEdgesGrow(ns: seq<Node>, ids: map<string, NodeRef>, pos: map<string, NodeRef>, keys: set<string>, x: string)
    requires x in ids
    ensures PositionEdges(ns, ids, pos, keys + {x}) <= PositionEdges(ns, ids, pos, keys) + ParentEdges(pos, ids[x], LinkedPositions(ns, ids[x]))
  {
    forall e | e in PositionEdges(ns, ids, pos, keys + {x})
      ensures e in PositionEdges(ns, ids, pos, keys) || e in ParentEdges(pos, ids[x], LinkedPositions(ns, ids[x]))
    {
      var y :| y in keys + {x} && y in ids && e in ParentEdges(pos, ids[y], LinkedPositions(ns, ids[y]));
      if y != x {
        assert y in keys;
      }
    }
  }

  lemma PositionEdgesAdded(ns: seq<Node>, ids: map<string, NodeRef>, pos: map<string, NodeRef>, keys: set<string>, x: string)
    requires x in ids
    ensures PositionEdges(ns, ids, pos, keys) + ParentEdges(pos, ids[x], LinkedPositions(ns, ids[x])) <= PositionEdges(ns, ids, pos, keys + {x})
  {
  }

  /** The identifiers of each category: `y` is filed under `c` exactly when it was already or
      `y` is one of `keys` whose node has category `c`. */
  ghost predicate CategoryIndex(before: map<string, set<string>>, after: map<string, set<string>>,
                                ns: seq<Node>, ids: map<string, NodeRef>, keys: set<string>) {
    forall c, y :: y in Filed(after, c) <==> y in Filed(before, c) || (y in keys && y in ids && c in CategoriesAt(ns, ids[y]))
  }

  lemma CategoryIndexStep(before: map<string, set<string>>, mid: map<string, set<string>>, after: map<string, set<string>>,
                          ns: seq<Node>, ids: map<string, NodeRef>, keys: set<string>, x: string)
    requires x in ids
    requires CategoryIndex(before, mid, ns, ids, keys)
    requires forall c, y :: y in Filed(after, c) <==> y in Filed(mid, c) || (y == x && c in CategoriesAt(ns, ids[x]))
    ensures CategoryIndex(before, after, ns, ids, keys + {x})
  {
  }

  /** The inner loop over positions of lines 152-156: `h` linked below the node at the parent
      of each position of `ps`, in order; KeyError at the first parent position with no node. */
  method LinkToParents(t: MeSHThesaurus, h: NodeRef, ps: seq<string>) returns (r: Result<()>)
    requires t.Valid() && h < |t.nodes|
    modifies t`nodes
    ensures t.Valid()
    ensures r.Ok? <==> forall p :: p in ps ==> ParentPosition(p) in t.nodeByPosition
    ensures r.Err? ==> r.error == KeyError
    ensures r.Ok? ==> Linked(old(t.nodes), t.nodes, ParentEdges(t.nodeByPosition, h, ps))
  {
    LinkedNone(t.nodes);
    for k := 0 to |ps|
      invariant t.Valid() && |t.nodes| == |old(t.nodes)|
      invariant forall p :: p in ps[..k] ==> ParentPosition(p) in t.nodeByPosition
      invariant Linked(old(t.nodes), t.nodes, ParentEdges(t.nodeByPosition, h, ps[..k]))
    {
      var parentPosition := ParentPosition(ps[k]);
      var found := t.GetNodeByPosition(parentPosition);
      if found.Err? {
        assert ps[k] in ps;
        return Err(KeyError);
      }
      var parent := found.value;
      LinkedStep(old(t.nodes), t.nodes, ParentEdges(t.nodeByPosition, h, ps[..k]), h, parent);
      TakeSnoc(ps, k);
      assert ParentEdges(t.nodeByPosition, h, ps[..k + 1]) == ParentEdges(t.nodeByPosition, h, ps[..k]) + {(h, parent)};
      Link(t, h, parent);
    }
    assert ps[..|ps|] == ps;
    r := Ok(());
  }

  /** Lines 157-158: `nodes_by_category[c].add(x)` for each category `c` of `cs`. */
  method IndexCategories(t: MeSHThesaurus, x: string, cs: set<string>)
    modifies t`nodesByCategory
    ensures forall c, y :: y in Filed(t.nodesByCategory, c) <==> y in Filed(old(t.nodesByCategory), c) || (y == x && c in cs)
  {
    var ks := Enumerate(cs);
    for k := 0 to |ks|
      invariant forall c, y :: y in Filed(t.nodesByCategory, c) <==> y in Filed(old(t.nodesByCategory), c) || (y == x && c in ks[..k])
    {
      TakeSnoc(ks, k);
      t.nodesByCategory := t.nodesByCategory[ks[k] := Filed(t.nodesByCategory, ks[k]) + {x}];
    }
    assert ks[..|ks|] == ks;
  }

  /** Linking keeps each node's positions and dummy flag. */
  lemma LinkedPositionsKept(before: seq<Node>, after: seq<Node>, edges: set<(NodeRef, NodeRef)>, h: NodeRef)
    requires Linked(before, after, edges)
    ensures LinkedPositions(after, h) == LinkedPositions(before, h)
    ensures CategoriesAt(after, h) == CategoriesAt(before, h)
  {
    if h < |before| {
      assert after[h] == before[h].(parents := after[h].parents, children := after[h].children);
    }
  }

  /** Lines 152-156 for one node: a node that is not dummy linked below the node at each of
      its parent positions; a dummy left alone. */
  method LinkNode(t: MeSHThesaurus, h: NodeRef) returns (r: Result<()>)
    requires t.Valid() && h < |t.nodes|
    modifies t`nodes
    ensures t.Valid()
    ensures r.Ok? <==> forall p :: p in LinkedPositions(old(t.nodes), h) ==> ParentPosition(p) in t.nodeByPosition
    ensures r.Err? ==> r.error == KeyError
    ensures r.Ok? ==> Linked(old(t.nodes), t.nodes, ParentEdges(t.nodeByPosition, h, LinkedPositions(old(t.nodes), h)))
  {
    if t.nodes[h].dummy {
      LinkedNone(t.nodes);
      assert ParentEdges(t.nodeByPosition, h, []) == {};
      return Ok(());
    }
    r := LinkToParents(t, h, t.nodes[h].positions);
  }

  /** Lines 149-158: every node that is not dummy linked below the node at each of its parent
      positions, and every node filed under each of its categories; KeyError on a parent
      position with no node. */
  method LinkPositions(t: MeSHThesaurus) returns (r: Result<()>)
    requires t.Valid()
    modifies t`nodes, t`nodesByCategory
    ensures t.Valid()
    ensures r.Ok? <==> PositionsResolve(old(t.nodes), t.nodeById, t.nodeByPosition, t.nodeById.Keys)
    ensures r.Err? ==> r.error == KeyError
    ensures r.Ok? ==> Linked(old(t.nodes), t.nodes, PositionEdges(old(t.nodes), t.nodeById, t.nodeByPosition, t.nodeById.Keys))
    ensures r.Ok? ==> CategoryIndex(old(t.nodesByCategory), t.nodesByCategory, old(t.nodes), t.nodeById, t.nodeById.Keys)
  {
    var ks := Enumerate(t.nodeById.Keys);
    ghost var done: set<string> := {};
    LinkedNone(t.nodes);
    for k := 0 to |ks|
      invariant t.Valid() && |t.nodes| == |old(t.nodes)|
      invariant forall x :: x in done <==> x in ks[..k]
      invariant PositionsResolve(old(t.nodes), t.nodeById, t.nodeByPosition, done)
      invariant Linked(old(t.nodes), t.nodes, PositionEdges(old(t.nodes), t.nodeById, t.nodeByPosition, done))
      invariant CategoryIndex(old(t.nodesByCategory), t.nodesByCategory, old(t.nodes), t.nodeById, done)
    {
      var x := ks[k];
      var h := t.nodeById[x];
      ghost var mid := t.nodes;
      ghost var edges := PositionEdges(old(t.nodes), t.nodeById, t.nodeByPosition, done);
      LinkedPositionsKept(old(t.nodes), mid, edges, h);
      var linked := LinkNode(t, h);
      if linked.Err? {
        return Err(KeyError);
      }
      LinkedTrans(old(t.nodes), mid, t.nodes, edges, ParentEdges(t.nodeByPosition, h, LinkedPositions(mid, h)));
      PositionEdgesAdd(old(t.nodes), t.nodeById, t.nodeByPosition, done, x);
      LinkedPositionsKept(old(t.nodes), t.nodes, PositionEdges(old(t.nodes), t.nodeById, t.nodeByPosition, done + {x}), h);
      ghost var filed := t.nodesByCategory;
      IndexCategories(t, x, t.nodes[h].categories);
      CategoryIndexStep(old(t.nodesByCategory), filed, t.nodesByCategory, old(t.nodes), t.nodeById, done, x);
      TakeSnoc(ks, k);
      done := done + {x};
    }
    assert ks[..|ks|] == ks;
    assert done == t.nodeById.Keys;
    r := Ok(());
  }

  // ----- what linking keeps -----

  /** Linking changes no category and no linked position, so it changes neither the edges the
      linking passes compute nor whether their lookups succeed. */
  lemma EdgesKept(a: seq<Node>, b: seq<Node>, edges: set<(NodeRef, NodeRef)>,
                  ids: map<string, NodeRef>, pos: map<string, NodeRef>, trees: set<string>, keys: set<string>)
    requires Linked(a, b, edges)
    ensures TreesResolve(a, ids, trees) <==> TreesResolve(b, ids, trees)
    ensures TreeEdges(a, ids, trees) == TreeEdges(b, ids, trees)
    ensures PositionsResolve(a, ids, pos, keys) <==> PositionsResolve(b, ids, pos, keys)
    ensures PositionEdges(a, ids, pos, keys) == PositionEdges(b, ids, pos, keys)
  {
    forall h: NodeRef
      ensures CategoriesAt(a, h) == CategoriesAt(b, h) && LinkedPositions(a, h) == LinkedPositions(b, h)
    {
      LinkedPositionsKept(a, b, edges, h);
    }
  }

  lemma CategoryIndexKept(m1: map<string, set<string>>, m2: map<string, set<string>>, a: seq<Node>, b: seq<Node>,
                          edges: set<(NodeRef, NodeRef)>, ids: map<string, NodeRef>, keys: set<string>)
    requires Linked(a, b, edges)
    requires CategoryIndex(m1, m2, b, ids, keys)
    ensures CategoryIndex(m1, m2, a, ids, keys)
  {
    forall h: NodeRef
      ensures CategoriesAt(a, h) == CategoriesAt(b, h)
    {
      LinkedPositionsKept(a, b, edges, h);
    }
  }

  /** Nodes appended alike on both sides keep a linking whose edges are among the old nodes. */
  lemma LinkedExtend(a: seq<Node>, b: seq<Node>, s: seq<Node>, edges: set<(NodeRef, NodeRef)>)
    requires Linked(a, b, edges)
    requires forall e :: e in edges ==> e.0 < |a| && e.1 < |a|
    ensures Linked(a + s, b + s, edges)
  {
  }

  /** Linking keeps every identifier and position where the tables index it. */
  lemma IndexedLinked(a: Tables, ns: seq<Node>, edges: set<(NodeRef, NodeRef)>)
    requires Indexed(a) && Linked(a.nodes, ns, edges)
    ensures Indexed(a.(nodes := ns))
  {
  }

  /** One record appends its node and reads nothing of the nodes before it but their number. */
  lemma WithRecordRelinked(x: Tables, ns: seq<Node>, d: Descriptor)
    requires Addable(d) && |ns| == |x.nodes|
    ensures WithRecord(x, d).nodes == x.nodes + [RecordNode(d)]
    ensures WithRecord(x, d).names == x.names && WithRecord(x, d).nbc == x.nbc
    ensures WithRecord(x.(nodes := ns), d) == WithRecord(x, d).(nodes := ns + [RecordNode(d)])
  {
  }

  /** The records only append nodes: they read nothing of the nodes before them but their
      number, and leave the categories and the category index alone. */
  lemma {:induction false} WithRecordsRelinked(a: Tables, ns: seq<Node>, ds: seq<Descriptor>)
    requires forall i :: 0 <= i < |ds| ==> Addable(ds[i])
    requires |ns| == |a.nodes|
    ensures var r := WithRecords(a, ds);
      && |a.nodes| <= |r.nodes| && r.nodes[..|a.nodes|] == a.nodes
      && r.names == a.names && r.nbc == a.nbc
      && WithRecords(a.(nodes := ns), ds) == r.(nodes := ns + r.nodes[|a.nodes|..])
  {
    WithRecordsAppend(a, ds);
    if |ds| > 0 {
      var init := ds[..|ds| - 1];
      var d := ds[|ds| - 1];
      WithRecordsRelinked(a, ns, init);
      var r0 := WithRecords(a, init);
      var n := |a.nodes|;
      WithRecordRelinked(r0, ns + r0.nodes[n..], d);
      var r := WithRecords(a, ds);
      assert r.nodes[n..] == r0.nodes[n..] + [RecordNode(d)];
      assert ns + r0.nodes[n..] + [RecordNode(d)] == ns + r.nodes[n..];
    }
  }

  /** The records append one node each and leave the category tables alone. */
  lemma {:induction false} WithRecordsAppend(a: Tables, ds: seq<Descriptor>)
    requires forall i :: 0 <= i < |ds| ==> Addable(ds[i])
    ensures var r := WithRecords(a, ds);
      && |a.nodes| <= |r.nodes| && r.nodes[..|a.nodes|] == a.nodes
      && r.names == a.names && r.nbc == a.nbc
  {
    if |ds| > 0 {
      var init := ds[..|ds| - 1];
      WithRecordsAppend(a, init);
      var r0 := WithRecords(a, init);
      WithRecordRelinked(r0, r0.nodes, ds[|ds| - 1]);
      assert WithRecords(a, ds).nodes[..|a.nodes|] == r0.nodes[..|a.nodes|];
    }
  }

  /** Adding records to tables whose first nodes were linked by `edges` gives the tables of
      adding them to the unlinked ones, with the same links on those first nodes. */
  lemma Relinked(s: Tables, ns: seq<Node>, edges: set<(NodeRef, NodeRef)>, ds: seq<Descriptor>)
    requires forall i :: 0 <= i < |ds| ==> Addable(ds[i])
    requires Linked(s.nodes, ns, edges)
    requires forall e :: e in edges ==> e.0 < |s.nodes| && e.1 < |s.nodes|
    ensures var b := WithRecords(s, ds);
      var b' := WithRecords(s.(nodes := ns), ds);
      && b' == b.(nodes := b'.nodes)
      && b.nbc == s.nbc
      && Linked(b.nodes, b'.nodes, edges)
  {
    WithRecordsRelinked(s, ns, ds);
    var b := WithRecords(s, ds);
    var suffix := b.nodes[|s.nodes|..];
    assert b.nodes == s.nodes + suffix;
    LinkedExtend(s.nodes, ns, suffix, edges);
  }

  /** The tables before the file are sound, hold no category index yet and end with `GEN`
      when there is one. */
  lemma StartedShape(cats: seq<string>, withRoot: bool)
    requires forall i :: 0 <= i < |cats| ==> Available(cats[i])
    ensures var s := Started(cats, withRoot);
      && Indexed(s) && s.nbc == map[]
      && |s.nodes| == |cats| + (if withRoot then 1 else 0)
  {
    WithRootsIndexed(NoTables, cats);
    WithRootsShape(NoTables, cats, Generic);
    if withRoot {
      WithGenericIndexed(WithRoots(NoTables, cats));
    }
  }

  /** With the root, `GEN` is among the categories it links below itself: it ends up its own
      parent and its own child. */
  lemma GenericSelfLoop(cats: seq<string>)
    requires forall i :: 0 <= i < |cats| ==> Available(cats[i])
    ensures (|cats|, |cats|) in GenericEdges(cats, true)
  {
    WithRootsShape(NoTables, cats, Generic);
    var s := Started(cats, true);
    assert Generic in s.names && s.ids[Generic] == |cats|;
  }

  /** The generic links stay among the nodes before the file. */
  lemma GenericEdgesBounded(cats: seq<string>, withRoot: bool)
    requires forall i :: 0 <= i < |cats| ==> Available(cats[i])
    ensures forall e :: e in GenericEdges(cats, withRoot) ==> e.0 < |Started(cats, withRoot).nodes| && e.1 < |Started(cats, withRoot).nodes|
  {
    StartedShape(cats, withRoot);
  }

  /** The tables built are sound and hold no category index before the position pass. */
  lemma BuiltShape(cats: seq<string>, withRoot: bool, lines: seq<string>)
    requires Builds(cats, withRoot, lines)
    ensures Indexed(Built(cats, withRoot, lines)) && Built(cats, withRoot, lines).nbc == map[]
  {
    var s := Started(cats, withRoot);
    StartedShape(cats, withRoot);
    var ds := Records(lines, s.names.Keys).value;
    WithRecordsIndexed(s, ds);
    WithRecordsRelinked(s, s.nodes, ds);
  }

  // ----- the descriptor file -----

  /** The records of `lines` can all be added to a thesaurus with tables `a`: the file
      parses, keeping the positions of `a`'s categories, and every record is `Addable`. */
  ghost predicate Readable(a: Tables, lines: seq<string>) {
    var rs := Records(lines, a.names.Keys);
    rs.Ok? && forall i :: 0 <= i < |rs.value| ==> Addable(rs.value[i])
  }

  /** The tables once the records of `lines` are added to `a`, before any link. */
  ghost function ReadInto(a: Tables, lines: seq<string>): Tables
    requires Readable(a, lines)
  {
    WithRecords(a, Records(lines, a.names.Keys).value)
  }

  /** Every tree, its categories and every parent position the linking passes look up is
      there. */
  ghost predicate Resolves(b: Tables) {
    TreesResolve(b.nodes, b.ids, b.trees.Keys) && PositionsResolve(b.nodes, b.ids, b.pos, b.ids.Keys)
  }

  /** The links of the two linking passes: trees under their categories, nodes under their
      parent positions. */
  ghost function HierarchyEdges(b: Tables): set<(NodeRef, NodeRef)> {
    TreeEdges(b.nodes, b.ids, b.trees.Keys) + PositionEdges(b.nodes, b.ids, b.pos, b.ids.Keys)
  }

  /** Lines 139-158: the tree pass, then the position pass. */
  method LinkHierarchy(t: MeSHThesaurus) returns (r: Result<()>)
    requires t.Valid()
    modifies t`nodes, t`nodesByCategory
    ensures t.Valid()
    ensures r.Ok? <==> Resolves(old(TablesOf(t)))
    ensures r.Err? ==> r.error == KeyError
    ensures r.Ok? ==> Linked(old(t.nodes), t.nodes, HierarchyEdges(old(TablesOf(t))))
    ensures r.Ok? ==> CategoryIndex(old(t.nodesByCategory), t.nodesByCategory, old(t.nodes), t.nodeById, t.nodeById.Keys)
  {
    ghost var a := TablesOf(t);
    var trees := LinkTrees(t);
    if trees.Err? {
      return Err(KeyError);
    }
    ghost var mid := t.nodes;
    EdgesKept(a.nodes, mid, TreeEdges(a.nodes, a.ids, a.trees.Keys), a.ids, a.pos, a.trees.Keys, a.ids.Keys);
    var positions := LinkPositions(t);
    if positions.Err? {
      return Err(KeyError);
    }
    LinkedTrans(a.nodes, mid, t.nodes, TreeEdges(a.nodes, a.ids, a.trees.Keys), PositionEdges(a.nodes, a.ids, a.pos, a.ids.Keys));
    CategoryIndexKept(a.nbc, t.nodesByCategory, a.nodes, mid, TreeEdges(a.nodes, a.ids, a.trees.Keys), a.ids, a.ids.Keys);
    r := Ok(());
  }

  /** `__parse_MeSH_file`: the records read and added, then linked; IndexError from a line or
      a record, KeyError from a lookup of the linking passes. */
  method ParseMeSHFile(t: MeSHThesaurus, lines: seq<string>) returns (r: Result<()>)
    requires t.Valid()
    modifies t`nodes, t`nodeById, t`nodeByPosition, t`trees, t`treesByCategory, t`categoryByTree, t`nodesByCategory
    ensures t.Valid()
    ensures r.Ok? <==> Readable(old(TablesOf(t)), lines) && Resolves(ReadInto(old(TablesOf(t)), lines))
    ensures r.Err? ==> r.error == IndexError || r.error == KeyError
    ensures r.Ok? ==> var b := ReadInto(old(TablesOf(t)), lines);
      TablesOf(t).(nodes := b.nodes, nbc := b.nbc) == b
    ensures r.Ok? ==> var b := ReadInto(old(TablesOf(t)), lines);
      Linked(b.nodes, t.nodes, HierarchyEdges(b)) && CategoryIndex(b.nbc, t.nodesByCategory, b.nodes, b.ids, b.ids.Keys)
  {
    ghost var a := TablesOf(t);
    var parsed := ParseRecords(lines, t.categories.Keys);
    if parsed.Err? {
      return Err(IndexError);
    }
    var added := AddRecords(t, parsed.value);
    if added.Err? {
      return Err(IndexError);
    }
    assert TablesOf(t) == ReadInto(a, lines);
    r := LinkHierarchy(t);
  }

  // ----- the thesaurus -----

  /** The tables before the descriptor file is read: the root nodes of `cats` and, with the
      root, `GEN`. */
  function Started(cats: seq<string>, withRoot: bool): Tables
    requires forall i :: 0 <= i < |cats| ==> Available(cats[i])
  {
    var roots := WithRoots(NoTables, cats);
    if withRoot then WithGeneric(roots) else roots
  }

  /** The links `__add_generic_node` makes: every category's node below `GEN`, the node after
      the roots. */
  ghost function GenericEdges(cats: seq<string>, withRoot: bool): set<(NodeRef, NodeRef)>
    requires forall i :: 0 <= i < |cats| ==> Available(cats[i])
  {
    var s := Started(cats, withRoot);
    if withRoot then Below(s.ids, s.names.Keys, |cats|) else {}
  }

  /** `get_thesaurus` succeeds exactly when the categories are known, the file can be read
      into the thesaurus and every lookup of the linking passes finds its node. */
  ghost predicate Builds(cats: seq<string>, withRoot: bool, lines: seq<string>) {
    && (forall i :: 0 <= i < |cats| ==> Available(cats[i]))
    && Readable(Started(cats, withRoot), lines)
    && Resolves(ReadInto(Started(cats, withRoot), lines))
  }

  /** The tables `get_thesaurus` builds, before any link. */
  ghost function Built(cats: seq<string>, withRoot: bool, lines: seq<string>): Tables
    requires Builds(cats, withRoot, lines)
  {
    ReadInto(Started(cats, withRoot), lines)
  }

  /** Lines 163-167: a new thesaurus with the root nodes of `cats` and, when `withRoot`, `GEN`
      linked above every category; KeyError on an unknown category. */
  method StartThesaurus(cats: seq<string>, withRoot: bool) returns (t: MeSHThesaurus, r: Result<()>)
    ensures fresh(t) && t.Valid()
    ensures r.Ok? <==> forall i :: 0 <= i < |cats| ==> Available(cats[i])
    ensures r.Err? ==> r.error == KeyError
    ensures r.Ok? ==> TablesOf(t) == Started(cats, withRoot).(nodes := t.nodes)
    ensures r.Ok? ==> Linked(Started(cats, withRoot).nodes, t.nodes, GenericEdges(cats, withRoot))
  {
    t := new MeSHThesaurus();
    r := CreateRootNodes(t, cats);
    if r.Err? {
      return;
    }
    WithRootsShape(NoTables, cats, Generic);
    if withRoot {
      var linked := AddGenericNode(t);
      forall c | c in t.categories
        ensures c in t.nodeById
      {
        WithRootsShape(NoTables, cats, c);
      }
      assert linked.Ok?;
    } else {
      LinkedNone(t.nodes);
    }
  }

  /** Filing from an empty index: each identifier is filed exactly under its node's categories. */
  lemma CategoryIndexFromEmpty(m: map<string, set<string>>, ns: seq<Node>, ids: map<string, NodeRef>)
    requires CategoryIndex(map[], m, ns, ids, ids.Keys)
    ensures forall c, y :: y in Filed(m, c) <==> y in ids && c in CategoriesAt(ns, ids[y])
  {
    assert forall c :: Filed(map[], c) == {};
  }

  /** Tables that differ only by links resolve the same lookups and give the same edges. */
  lemma RelinkedResolves(b: Tables, b': Tables, edges: set<(NodeRef, NodeRef)>)
    requires b' == b.(nodes := b'.nodes) && Linked(b.nodes, b'.nodes, edges)
    ensures Resolves(b) <==> Resolves(b')
    ensures HierarchyEdges(b) == HierarchyEdges(b')
  {
    EdgesKept(b.nodes, b'.nodes, edges, b.ids, b.pos, b.trees.Keys, b.ids.Keys);
  }

  /** Reading records into tables whose nodes were relinked reads the same records, to the same
      tables but for the links, and the linking passes find the same nodes and edges. */
  lemma ReadRelinked(s: Tables, ns: seq<Node>, edges: set<(NodeRef, NodeRef)>, lines: seq<string>)
    requires Linked(s.nodes, ns, edges)
    requires forall e :: e in edges ==> e.0 < |s.nodes| && e.1 < |s.nodes|
    requires Readable(s, lines)
    ensures Readable(s.(nodes := ns), lines)
    ensures var b := ReadInto(s, lines);
      var b' := ReadInto(s.(nodes := ns), lines);
      && b' == b.(nodes := b'.nodes)
      && Linked(b.nodes, b'.nodes, edges)
      && (Resolves(b) <==> Resolves(b'))
      && HierarchyEdges(b) == HierarchyEdges(b')
  {
    assert s.(nodes := ns).names == s.names;
    Relinked(s, ns, edges, Records(lines, s.names.Keys).value);
    RelinkedResolves(ReadInto(s, lines), ReadInto(s.(nodes := ns), lines), edges);
  }

  /** Reading into the started thesaurus after its generic edges are linked reads exactly
      when reading into the bare one does. */
  lemma AssembledBuilds(cats: seq<string>, withRoot: bool, lines: seq<string>, ns: seq<Node>)
    requires forall i :: 0 <= i < |cats| ==> Available(cats[i])
    requires Linked(Started(cats, withRoot).nodes, ns, GenericEdges(cats, withRoot))
    ensures var a := Started(cats, withRoot).(nodes := ns);
      Readable(a, lines) && Resolves(ReadInto(a, lines)) <==> Builds(cats, withRoot, lines)
    ensures var a := Started(cats, withRoot).(nodes := ns);
      Readable(a, lines) ==>
      var b := ReadInto(Started(cats, withRoot), lines);
      var b' := ReadInto(a, lines);
      && b' == b.(nodes := b'.nodes)
      && Linked(b.nodes, b'.nodes, GenericEdges(cats, withRoot))
      && (Resolves(b) <==> Resolves(b'))
      && HierarchyEdges(b) == HierarchyEdges(b')
  {
    var s := Started(cats, withRoot);
    GenericEdgesBounded(cats, withRoot);
    assert s.(nodes := ns).names == s.names;
    if Readable(s, lines) {
      ReadRelinked(s, ns, GenericEdges(cats, withRoot), lines);
    }
  }

  /** The tables after linking the hierarchy, in terms of those read into the bare thesaurus. */
  lemma AssembledTables(cats: seq<string>, withRoot: bool, lines: seq<string>, ns: seq<Node>, f: Tables)
    requires forall i :: 0 <= i < |cats| ==> Available(cats[i])
    requires Linked(Started(cats, withRoot).nodes, ns, GenericEdges(cats, withRoot))
    requires Builds(cats, withRoot, lines)
    requires var a := Started(cats, withRoot).(nodes := ns);
      Readable(a, lines) && Resolves(ReadInto(a, lines))
    requires var b' := ReadInto(Started(cats, withRoot).(nodes := ns), lines);
      && f.(nodes := b'.nodes, nbc := b'.nbc) == b'
      && Linked(b'.nodes, f.nodes, HierarchyEdges(b'))
      && CategoryIndex(b'.nbc, f.nbc, b'.nodes, b'.ids, b'.ids.Keys)
    ensures var b := Built(cats, withRoot, lines);
      && f.(nodes := b.nodes, nbc := b.nbc) == b
      && Linked(b.nodes, f.nodes, GenericEdges(cats, withRoot) + HierarchyEdges(b))
      && (forall c, y :: y in Filed(f.nbc, c) <==> y in b.ids && c in CategoriesAt(b.nodes, b.ids[y]))
      && Indexed(f)
  {
    AssembledBuilds(cats, withRoot, lines, ns);
    var edges := GenericEdges(cats, withRoot);
    var b' := ReadInto(Started(cats, withRoot).(nodes := ns), lines);
    var b := Built(cats, withRoot, lines);
    LinkedTrans(b.nodes, b'.nodes, f.nodes, edges, HierarchyEdges(b));
    BuiltShape(cats, withRoot, lines);
    IndexedLinked(b, f.nodes, edges + HierarchyEdges(b));
    assert f == b.(nodes := f.nodes, nbc := f.nbc);
    CategoryIndexKept(b.nbc, f.nbc, b.nodes, b'.nodes, edges, b.ids, b.ids.Keys);
    CategoryIndexFromEmpty(f.nbc, b.nodes, b.ids);
  }

  /** What reading the file into the started thesaurus gives, in terms of the tables built. */
  lemma Assembled(cats: seq<string>, withRoot: bool, lines: seq<string>, ns: seq<Node>, f: Tables)
    requires forall i :: 0 <= i < |cats| ==> Available(cats[i])
    requires Linked(Started(cats, withRoot).nodes, ns, GenericEdges(cats, withRoot))
    ensures var a := Started(cats, withRoot).(nodes := ns);
      Readable(a, lines) && Resolves(ReadInto(a, lines)) <==> Builds(cats, withRoot, lines)
    ensures var a := Started(cats, withRoot).(nodes := ns);
      Readable(a, lines) && Resolves(ReadInto(a, lines)) ==>
      var b' := ReadInto(a, lines);
      f.(nodes := b'.nodes, nbc := b'.nbc) == b' ==>
      Linked(b'.nodes, f.nodes, HierarchyEdges(b')) ==>
      CategoryIndex(b'.nbc, f.nbc, b'.nodes, b'.ids, b'.ids.Keys) ==>
      var b := Built(cats, withRoot, lines);
      && f.(nodes := b.nodes, nbc := b.nbc) == b
      && Linked(b.nodes, f.nodes, GenericEdges(cats, withRoot) + HierarchyEdges(b))
      && (forall c, y :: y in Filed(f.nbc, c) <==> y in b.ids && c in CategoriesAt(b.nodes, b.ids[y]))
      && Indexed(f)
  {
    AssembledBuilds(cats, withRoot, lines, ns);
    var a := Started(cats, withRoot).(nodes := ns);
    if Readable(a, lines) && Resolves(ReadInto(a, lines)) {
      var b' := ReadInto(a, lines);
      if && f.(nodes := b'.nodes, nbc := b'.nbc) == b'
         && Linked(b'.nodes, f.nodes, HierarchyEdges(b'))
         && CategoryIndex(b'.nbc, f.nbc, b'.nodes, b'.ids, b'.ids.Keys)
      {
        AssembledTables(cats, withRoot, lines, ns, f);
      }
    }
  }

  /** `get_thesaurus`: a new thesaurus with the root nodes of `cats`, `GEN` when `withRoot`,
      and the records of `lines`, linked. */
  method GetThesaurus(cats: seq<string>, withRoot: bool, lines: seq<string>) returns (t: MeSHThesaurus, r: Result<()>)
    ensures fresh(t) && t.Valid()
    ensures r.Ok? <==> Builds(cats, withRoot, lines)
    ensures r.Err? ==> r.error == KeyError || r.error == IndexError
    ensures (exists i :: 0 <= i < |cats| && !Available(cats[i])) ==> r == Err(KeyError)
    ensures r.Ok? ==> var b := Built(cats, withRoot, lines);
      TablesOf(t).(nodes := b.nodes, nbc := b.nbc) == b
    ensures r.Ok? ==> var b := Built(cats, withRoot, lines);
      Linked(b.nodes, t.nodes, GenericEdges(cats, withRoot) + HierarchyEdges(b))
    ensures r.Ok? ==> var b := Built(cats, withRoot, lines);
      forall c, y :: y in Filed(t.nodesByCategory, c) <==> y in b.ids && c in CategoriesAt(b.nodes, b.ids[y])
    ensures r.Ok? ==> Indexed(TablesOf(t))
  {
    t, r := StartThesaurus(cats, withRoot);
    if r.Err? {
      return;
    }
    ghost var ns := t.nodes;
    r := ParseMeSHFile(t, lines);
    Assembled(cats, withRoot, lines, ns, TablesOf(t));
  }
}
