/** The annotation index: objects (diseases) annotated to thesaurus descriptors, with
    true-path propagation to every ancestor and a reverse descriptor -> objects index. */
module Annotations {
  import opened Wrappers
  import opened Strings
  import opened Thesaurus

  /** A defaultdict-of-set read without inserting: the set stored at `k`, or the empty set. */
  function Get(m: map<string, set<string>>, k: string): set<string> {
    if k in m then m[k] else {}
  }

  /** The three maps and the filter of an `Annotation`, as one value. */
  datatype AnnState = AnnState(
    objects: map<string, set<string>>,     // object -> propagated descriptors
    descriptors: map<string, set<string>>, // descriptor -> objects annotated to it
    direct: map<string, set<string>>,      // object -> directly annotated descriptors
    valid: set<string>)                    // the valid-descriptor filter; empty means none

  /** `(not self.valid) or (d in self.valid)`. */
  predicate Passes(valid: set<string>, d: string) {
    valid == {} || d in valid
  }

  function Filter(valid: set<string>, ids: set<string>): (r: set<string>)
    ensures forall d :: d in r <==> d in ids && Passes(valid, d)
  {
    set d | d in ids && Passes(valid, d)
  }

  /** `d in objects[o]` exactly when `o in descriptors[d]`. */
  ghost predicate Consistent(st: AnnState) {
    && (forall o, d :: o in st.objects && d in st.objects[o] ==> d in st.descriptors && o in st.descriptors[d])
    && (forall o, d :: d in st.descriptors && o in st.descriptors[d] ==> o in st.objects && d in st.objects[o])
  }

  /** Adds `v` to the set of every key in `keys`, creating the entries that are missing. */
  function AddToEach(m: map<string, set<string>>, keys: set<string>, v: string): (r: map<string, set<string>>)
    ensures r.Keys == m.Keys + keys
    ensures forall k :: k in keys ==> r[k] == Get(m, k) + {v}
    ensures forall k :: k in m && k !in keys ==> r[k] == m[k]
  {
    map k | k in m.Keys + keys :: if k in keys then Get(m, k) + {v} else m[k]
  }

  /** Adds the elements of `s` to the set at `k`; the entry is created only when `s` is not empty. */
  function Extend(m: map<string, set<string>>, k: string, s: set<string>): (r: map<string, set<string>>)
    ensures s != {} ==> r == m[k := Get(m, k) + s]
    ensures s == {} ==> r == m
  {
    if s == {} then m else m[k := Get(m, k) + s]
  }

  /** What `annotate(obj, desc, node)` does to the state, given the identifiers of the
      node's ancestors (the node itself included). */
  function AnnotateSpec(st: AnnState, obj: string, desc: string, ancestorIds: set<string>): AnnState {
    if !Passes(st.valid, desc) then st
    else
      var kept := Filter(st.valid, ancestorIds);
      st.(direct := st.direct[obj := Get(st.direct, obj) + {desc}],
          objects := Extend(st.objects, obj, kept),
          descriptors := AddToEach(st.descriptors, kept, obj))
  }

  /** The identifiers of a set of node objects. */
  function Ids(ns: seq<Node>, refs: set<NodeRef>): (r: set<string>)
    ensures forall a :: a in refs && a < |ns| ==> ns[a].identifier in r
  {
    set a | a in refs && a < |ns| :: ns[a].identifier
  }

  lemma IdsStep(ns: seq<Node>, refs: set<NodeRef>, a: NodeRef)
    requires a < |ns|
    ensures Ids(ns, refs + {a}) == Ids(ns, refs) + {ns[a].identifier}
  {
  }

  lemma ExtendStep(m: map<string, set<string>>, k: string, s: set<string>, x: string)
    ensures Extend(Extend(m, k, s), k, {x}) == Extend(m, k, s + {x})
  {
    if s != {} {
      var m' := m[k := Get(m, k) + s];
      assert Get(m', k) == Get(m, k) + s;
      assert Get(m', k) + {x} == Get(m, k) + (s + {x});
    } else {
      assert s + {x} == {x};
    }
  }

  lemma FilterStep(valid: set<string>, ids: set<string>, x: string)
    ensures Filter(valid, ids + {x}) == Filter(valid, ids) + (if Passes(valid, x) then {x} else {})
  {
  }

  lemma AddToEachStep(m: map<string, set<string>>, keys: set<string>, k: string, v: string)
    ensures AddToEach(m, keys, v)[k := Get(AddToEach(m, keys, v), k) + {v}] == AddToEach(m, keys + {k}, v)
  {
  }

  /** A filtered-out descriptor changes nothing; otherwise it is a direct annotation and every
      ancestor that passes the filter is among the object's descriptors, and conversely. */
  lemma TruePath(st: AnnState, obj: string, desc: string, ancestorIds: set<string>)
    ensures !Passes(st.valid, desc) ==> AnnotateSpec(st, obj, desc, ancestorIds) == st
    ensures Passes(st.valid, desc) ==>
      var st' := AnnotateSpec(st, obj, desc, ancestorIds);
      && obj in st'.direct && desc in st'.direct[obj]
      && forall a :: a in ancestorIds && Passes(st.valid, a) ==>
           obj in st'.objects && a in st'.objects[obj] && a in st'.descriptors && obj in st'.descriptors[a]
    ensures Passes(st.valid, desc) ==>
      var st' := AnnotateSpec(st, obj, desc, ancestorIds);
      && Get(st'.direct, obj) == Get(st.direct, obj) + {desc}
      && (forall a :: a in Get(st'.objects, obj) <==>
            a in Get(st.objects, obj) || (a in ancestorIds && Passes(st.valid, a)))
      && (forall a :: obj in Get(st'.descriptors, a) <==>
            obj in Get(st.descriptors, a) || (a in ancestorIds && Passes(st.valid, a)))
  {
  }

  lemma AnnotateForward(st: AnnState, obj: string, desc: string, ancestorIds: set<string>)
    requires Consistent(st) && Passes(st.valid, desc)
    ensures var st' := AnnotateSpec(st, obj, desc, ancestorIds);
      forall o, d :: o in st'.objects && d in st'.objects[o] ==> d in st'.descriptors && o in st'.descriptors[d]
  {
    var st' := AnnotateSpec(st, obj, desc, ancestorIds);
    var kept := Filter(st.valid, ancestorIds);
    forall o, d | o in st'.objects && d in st'.objects[o]
      ensures d in st'.descriptors && o in st'.descriptors[d]
    {
      if !(o == obj && d in kept) {
        assert o in st.objects && d in st.objects[o];
      }
    }
  }

  lemma AnnotateBackward(st: AnnState, obj: string, desc: string, ancestorIds: set<string>)
    requires Consistent(st) && Passes(st.valid, desc)
    ensures var st' := AnnotateSpec(st, obj, desc, ancestorIds);
      forall o, d :: d in st'.descriptors && o in st'.descriptors[d] ==> o in st'.objects && d in st'.objects[o]
  {
    var st' := AnnotateSpec(st, obj, desc, ancestorIds);
    var kept := Filter(st.valid, ancestorIds);
    forall o, d | d in st'.descriptors && o in st'.descriptors[d]
      ensures o in st'.objects && d in st'.objects[o]
    {
      if !(o == obj && d in kept) {
        assert d in st.descriptors && o in st.descriptors[d];
      }
    }
  }

  /** `annotate` keeps the two maps mirror images of each other. */
  lemma AnnotateConsistent(st: AnnState, obj: string, desc: string, ancestorIds: set<string>)
    requires Consistent(st)
    ensures Consistent(AnnotateSpec(st, obj, desc, ancestorIds))
  {
    if Passes(st.valid, desc) {
      AnnotateForward(st, obj, desc, ancestorIds);
      AnnotateBackward(st, obj, desc, ancestorIds);
    }
  }

  lemma AddOnceTwice(m: map<string, set<string>>, k: string, x: string)
    ensures var m' := m[k := Get(m, k) + {x}]; m'[k := Get(m', k) + {x}] == m'
  {
    var m' := m[k := Get(m, k) + {x}];
    assert Get(m', k) + {x} == Get(m', k);
  }

  lemma ExtendTwice(m: map<string, set<string>>, k: string, s: set<string>)
    ensures Extend(Extend(m, k, s), k, s) == Extend(m, k, s)
  {
    if s != {} {
      var m' := m[k := Get(m, k) + s];
      assert Get(m', k) + s == Get(m', k);
    }
  }

  lemma AddToEachTwice(m: map<string, set<string>>, keys: set<string>, v: string)
    ensures AddToEach(AddToEach(m, keys, v), keys, v) == AddToEach(m, keys, v)
  {
    var m' := AddToEach(m, keys, v);
    var m'' := AddToEach(m', keys, v);
    forall k | k in m''
      ensures m''[k] == m'[k]
    {
      if k in keys {
        assert Get(m', k) + {v} == m'[k];
      }
    }
  }

  /** Annotating the same triple a second time changes nothing. */
  lemma AnnotateIdempotent(st: AnnState, obj: string, desc: string, ancestorIds: set<string>)
    ensures var st' := AnnotateSpec(st, obj, desc, ancestorIds);
      AnnotateSpec(st', obj, desc, ancestorIds) == st'
  {
    if Passes(st.valid, desc) {
      var kept := Filter(st.valid, ancestorIds);
      AddOnceTwice(st.direct, obj, desc);
      ExtendTwice(st.objects, obj, kept);
      AddToEachTwice(st.descriptors, kept, obj);
    }
  }

  /** `Annotation`: the index the annotation parser builds. */
  class Annotation {
    var objects: map<string, set<string>>
    var descriptors: map<string, set<string>>
    var directAnnotations: map<string, set<string>>
    var valid: set<string>

    function State(): AnnState
      reads this
    {
      AnnState(objects, descriptors, directAnnotations, valid)
    }

    constructor ()
      ensures State() == AnnState(map[], map[], map[], {})
      ensures Consistent(State())
    {
      objects := map[];
      descriptors := map[];
      directAnnotations := map[];
      valid := {};
    }

    /** `set_valid_descriptors`: later annotations outside `v` are ignored (unless `v` is empty). */
    method SetValidDescriptors(v: set<string>)
      modifies this`valid
      ensures State() == old(State()).(valid := v)
    {
      valid := v;
    }

    /** `annotate(id_object, id_descriptor, node)`. */
    method Annotate(obj: string, desc: string, ns: seq<Node>, h: NodeRef)
      requires WellFormed(ns) && h < |ns|
      modifies this`objects, this`descriptors, this`directAnnotations
      ensures State() == AnnotateSpec(old(State()), obj, desc, Ids(ns, Ancestors(ns, h)))
    {
      if !Passes(valid, desc) {
        return;
      }
      directAnnotations := directAnnotations[obj := Get(directAnnotations, obj) + {desc}];
      var ancestors := GetAncestors(ns, h);
      Propagate(obj, ns, ancestors);
    }

    /** The loop of `annotate` over the ancestor nodes: files `obj` under each identifier
        that passes the filter. */
    method Propagate(obj: string, ns: seq<Node>, refs: set<NodeRef>)
      requires forall a :: a in refs ==> a < |ns|
      modifies this`objects, this`descriptors
      ensures objects == Extend(old(objects), obj, Filter(valid, Ids(ns, refs)))
      ensures descriptors == AddToEach(old(descriptors), Filter(valid, Ids(ns, refs)), obj)
    {
      var todo := refs;
      ghost var done: set<NodeRef> := {};
      ghost var kept: set<string> := {};
      while todo != {}
        invariant done + todo == refs && done !! todo
        invariant kept == Filter(valid, Ids(ns, done))
        invariant objects == Extend(old(objects), obj, kept)
        invariant descriptors == AddToEach(old(descriptors), kept, obj)
        decreases todo
      {
        var a :| a in todo;
        var id := ns[a].identifier;
        IdsStep(ns, done, a);
        FilterStep(valid, Ids(ns, done), id);
        if Passes(valid, id) {
          AddToEachStep(old(descriptors), kept, id, obj);
          descriptors := descriptors[id := Get(descriptors, id) + {obj}];
          ExtendStep(old(objects), obj, kept, id);
          objects := objects[obj := Get(objects, obj) + {id}];
          kept := kept + {id};
        }
        done := done + {a};
        todo := todo - {a};
      }
    }

    /** `get_direct_annotations(obj)`: a defaultdict read, so an unseen object gets an entry. */
    method GetDirectAnnotations(obj: string) returns (r: set<string>)
      modifies this`directAnnotations
      ensures r == Get(old(directAnnotations), obj)
      ensures directAnnotations == old(directAnnotations)[obj := r]
    {
      r := Get(directAnnotations, obj);
      directAnnotations := directAnnotations[obj := r];
    }

    /** `get_descriptors_per_object(obj)`, inserting an empty entry for an unseen object. */
    method GetDescriptorsPerObject(obj: string) returns (r: set<string>)
      modifies this`objects
      ensures r == Get(old(objects), obj)
      ensures objects == old(objects)[obj := r]
    {
      r := Get(objects, obj);
      objects := objects[obj := r];
    }

    /** `get_objects_per_descriptor(d)`, inserting an empty entry for an unseen descriptor. */
    method GetObjectsPerDescriptor(d: string) returns (r: set<string>)
      modifies this`descriptors
      ensures r == Get(old(descriptors), d)
      ensures descriptors == old(descriptors)[d := r]
    {
      r := Get(descriptors, d);
      descriptors := descriptors[d := r];
    }

    /** `num_annot_per_descriptor(d)`: how many objects are annotated to `d`; 0 for an unseen
        descriptor, which then shows up among `get_descriptors()`. */
    method NumAnnotPerDescriptor(d: string) returns (n: nat)
      modifies this`descriptors
      ensures n == |Get(old(descriptors), d)|
      ensures d in old(descriptors) ==> descriptors == old(descriptors)
      ensures d !in old(descriptors) ==> n == 0 && descriptors == old(descriptors)[d := {}]
    {
      var s := GetObjectsPerDescriptor(d);
      n := |s|;
    }

    function GetObjects(): set<string>
      reads this
    {
      objects.Keys
    }

    function GetDescriptors(): set<string>
      reads this
    {
      descriptors.Keys
    }
  }

  // ----- the annotation parser -----

  /** The whitespace-separated fields of an annotation line. */
  function Fields(line: string): seq<string> {
    SplitWs(Strip(line))
  }

  /** The fields of every line. */
  function Rows(lines: seq<string>): (rows: seq<seq<string>>)
    ensures |rows| == |lines| && forall i :: 0 <= i < |lines| ==> rows[i] == Fields(lines[i])
  {
    seq(|lines|, i requires 0 <= i < |lines| => Fields(lines[i]))
  }

  /** The object a row is about (its first field), or "" for a blank row. */
  function Head(row: seq<string>): string {
    if |row| > 0 then row[0] else ""
  }

  /** `__readAnnotations` over the rows read so far: each row maps its first field to
      the rest, a later row overwriting an earlier one; a blank row raises IndexError. */
  function ReadRows(rows: seq<seq<string>>): Result<map<string, seq<string>>> {
    if |rows| == 0 then Ok(map[])
    else
      var prev :- ReadRows(rows[..|rows| - 1]);
      var f := rows[|rows| - 1];
      if |f| == 0 then Err(IndexError) else Ok(prev[f[0] := f[1..]])
  }

  /** Reading fails, with IndexError, exactly when some row is blank. */
  lemma {:induction false} ReadRowsFails(rows: seq<seq<string>>)
    ensures ReadRows(rows).Ok? <==> forall i :: 0 <= i < |rows| ==> |rows[i]| > 0
    ensures ReadRows(rows).Err? ==> ReadRows(rows).error == IndexError
  {
    if |rows| > 0 {
      var init := rows[..|rows| - 1];
      ReadRowsFails(init);
      assert forall i :: 0 <= i < |init| ==> init[i] == rows[i];
    }
  }

  /** Once a prefix fails, the whole file fails. */
  lemma {:induction false} ReadRowsErrExtends(rows: seq<seq<string>>, k: nat)
    requires k <= |rows| && ReadRows(rows[..k]).Err?
    ensures ReadRows(rows).Err?
  {
    if k < |rows| {
      var init := rows[..|rows| - 1];
      assert init[..k] == rows[..k];
      ReadRowsErrExtends(init, k);
    } else {
      assert rows[..k] == rows;
    }
  }

  /** The objects read are the first fields of the rows. */
  lemma {:induction false} ReadRowsKeys(rows: seq<seq<string>>)
    requires ReadRows(rows).Ok?
    ensures forall o :: o in ReadRows(rows).value <==> exists i :: 0 <= i < |rows| && Head(rows[i]) == o
  {
    if |rows| > 0 {
      var init := rows[..|rows| - 1];
      var last := |rows| - 1;
      ReadRowsKeys(init);
      var data := ReadRows(rows).value;
      forall o | o in data
        ensures exists i :: 0 <= i < |rows| && Head(rows[i]) == o
      {
        if o != Head(rows[last]) {
          var i :| 0 <= i < |init| && Head(init[i]) == o;
          assert init[i] == rows[i];
        }
      }
      forall o | exists i :: 0 <= i < |rows| && Head(rows[i]) == o
        ensures o in data
      {
        var i :| 0 <= i < |rows| && Head(rows[i]) == o;
        if i < last {
          assert init[i] == rows[i];
        }
      }
    }
  }

  /** Each object is mapped to the remaining fields of the LAST row that names it. */
  lemma {:induction false} ReadRowsLastWins(rows: seq<seq<string>>, i: nat)
    requires ReadRows(rows).Ok? && i < |rows|
    requires forall j :: i < j < |rows| ==> Head(rows[j]) != Head(rows[i])
    ensures Head(rows[i]) in ReadRows(rows).value
    ensures ReadRows(rows).value[Head(rows[i])] == Tail(rows[i])
  {
    if i < |rows| - 1 {
      var init := rows[..|rows| - 1];
      assert init[i] == rows[i];
      assert forall j :: i < j < |init| ==> init[j] == rows[j];
      ReadRowsLastWins(init, i);
      assert Head(rows[|rows| - 1]) != Head(rows[i]);
    }
  }

  /** `AnnotationParser.__readAnnotations`. */
  method ReadAnnotations(lines: seq<string>) returns (r: Result<map<string, seq<string>>>)
    ensures r == ReadRows(Rows(lines))
  {
    ghost var rows := Rows(lines);
    var data: map<string, seq<string>> := map[];
    for k := 0 to |lines|
      invariant ReadRows(rows[..k]) == Ok(data)
    {
      assert rows[..k + 1][..k] == rows[..k];
      var fields := Fields(lines[k]);
      if |fields| == 0 {
        ReadRowsErrExtends(rows, k + 1);
        ReadRowsFails(rows);
        return Err(IndexError);
      }
      data := data[fields[0] := fields[1..]];
    }
    assert rows[..|lines|] == rows;
    r := Ok(data);
  }

  /** The (object, descriptor) pairs a run has annotated, and what each descriptor
      propagates to (its ancestors' identifiers, already filtered). */
  ghost function PairObjs(pairs: set<(string, string)>): set<string> {
    set p | p in pairs :: p.0
  }

  ghost function DirectOf(pairs: set<(string, string)>, o: string): set<string> {
    set p | p in pairs && p.0 == o :: p.1
  }

  ghost function PropagatedOf(pairs: set<(string, string)>, kept: string -> set<string>, o: string): set<string> {
    set p, a | p in pairs && p.0 == o && a in kept(p.1) :: a
  }

  ghost function AnnotatedTo(pairs: set<(string, string)>, kept: string -> set<string>, a: string): set<string> {
    set p | p in pairs && a in kept(p.1) :: p.0
  }

  ghost function AllKept(pairs: set<(string, string)>, kept: string -> set<string>): set<string> {
    set p, a | p in pairs && a in kept(p.1) :: a
  }

  /** The annotation that annotating every pair of `pairs` yields, whatever the order. */
  ghost function Built(pairs: set<(string, string)>, kept: string -> set<string>, valid: set<string>): AnnState {
    AnnState(
      map o | o in PairObjs(pairs) && PropagatedOf(pairs, kept, o) != {} :: PropagatedOf(pairs, kept, o),
      map a | a in AllKept(pairs, kept) :: AnnotatedTo(pairs, kept, a),
      map o | o in PairObjs(pairs) :: DirectOf(pairs, o),
      valid)
  }

  lemma BuiltStepDirect(pairs: set<(string, string)>, kept: string -> set<string>, valid: set<string>,
                        o: string, d: string)
    ensures var st := Built(pairs, kept, valid);
      Built(pairs + {(o, d)}, kept, valid).direct == st.direct[o := Get(st.direct, o) + {d}]
  {
    var st := Built(pairs, kept, valid);
    var q := pairs + {(o, d)};
    var want := Built(q, kept, valid);
    assert PairObjs(q) == PairObjs(pairs) + {o};
    forall x | x in PairObjs(q)
      ensures want.direct[x] == st.direct[o := Get(st.direct, o) + {d}][x]
    {
      if x != o {
        assert DirectOf(q, x) == DirectOf(pairs, x);
      } else {
        assert DirectOf(q, x) == Get(st.direct, x) + {d};
      }
    }
  }

  /** An object's propagated descriptors, read from the built state. */
  lemma BuiltObjectsGet(pairs: set<(string, string)>, kept: string -> set<string>, valid: set<string>, x: string)
    ensures Get(Built(pairs, kept, valid).objects, x) == PropagatedOf(pairs, kept, x)
  {
    forall a | a in PropagatedOf(pairs, kept, x)
      ensures x in PairObjs(pairs)
    {
      var p, b :| p in pairs && p.0 == x && b in kept(p.1) && b == a;
    }
  }

  lemma BuiltStepObjects(pairs: set<(string, string)>, kept: string -> set<string>, valid: set<string>,
                         o: string, d: string)
    ensures var st := Built(pairs, kept, valid);
      Built(pairs + {(o, d)}, kept, valid).objects == Extend(st.objects, o, kept(d))
  {
    var st := Built(pairs, kept, valid);
    var q := pairs + {(o, d)};
    var want := Built(q, kept, valid);
    var ext := Extend(st.objects, o, kept(d));
    BuiltObjectsGet(pairs, kept, valid, o);
    assert PropagatedOf(q, kept, o) == PropagatedOf(pairs, kept, o) + kept(d);
    forall x | x != o
      ensures PropagatedOf(q, kept, x) == PropagatedOf(pairs, kept, x)
    {
    }
    assert PairObjs(q) == PairObjs(pairs) + {o};
    forall x
      ensures x in want.objects <==> x in ext
      ensures x in want.objects ==> want.objects[x] == ext[x]
    {
      BuiltObjectsGet(pairs, kept, valid, x);
      BuiltObjectsGet(q, kept, valid, x);
    }
  }

  lemma BuiltStepDescriptors(pairs: set<(string, string)>, kept: string -> set<string>, valid: set<string>,
                             o: string, d: string)
    ensures var st := Built(pairs, kept, valid);
      Built(pairs + {(o, d)}, kept, valid).descriptors == AddToEach(st.descriptors, kept(d), o)
  {
    var st := Built(pairs, kept, valid);
    var q := pairs + {(o, d)};
    var want := Built(q, kept, valid);
    assert AllKept(q, kept) == AllKept(pairs, kept) + kept(d);
    forall a | a in AllKept(q, kept)
      ensures want.descriptors[a] == AddToEach(st.descriptors, kept(d), o)[a]
    {
      if a in kept(d) {
        assert AnnotatedTo(q, kept, a) == Get(st.descriptors, a) + {o};
      } else {
        assert AnnotatedTo(q, kept, a) == AnnotatedTo(pairs, kept, a);
      }
    }
  }

  /** Annotating one more pair moves from the state of `pairs` to that of `pairs + {(o, d)}`;
      so the result of a run does not depend on the order of the pairs. */
  lemma BuiltStep(pairs: set<(string, string)>, kept: string -> set<string>, valid: set<string>,
                  o: string, d: string, ancestorIds: set<string>)
    requires Passes(valid, d) && kept(d) == Filter(valid, ancestorIds)
    ensures AnnotateSpec(Built(pairs, kept, valid), o, d, ancestorIds) == Built(pairs + {(o, d)}, kept, valid)
  {
    BuiltStepDirect(pairs, kept, valid, o, d);
    BuiltStepObjects(pairs, kept, valid, o, d);
    BuiltStepDescriptors(pairs, kept, valid, o, d);
  }

  /** The state of any set of pairs keeps the two maps mirror images of each other. */
  lemma BuiltConsistent(pairs: set<(string, string)>, kept: string -> set<string>, valid: set<string>)
    ensures Consistent(Built(pairs, kept, valid))
  {
    var st := Built(pairs, kept, valid);
    forall o, a | o in st.objects && a in st.objects[o]
      ensures a in st.descriptors && o in st.descriptors[a]
    {
      var p, b :| p in pairs && p.0 == o && b in kept(p.1) && b == a;
      assert a in AllKept(pairs, kept);
    }
    forall o, a | a in st.descriptors && o in st.descriptors[a]
      ensures o in st.objects && a in st.objects[o]
    {
      var p :| p in pairs && a in kept(p.1) && p.0 == o;
      assert a in PropagatedOf(pairs, kept, o);
    }
  }

  /** What each descriptor identifier propagates to in a thesaurus: the filtered identifiers of
      the ancestors of the node registered under it. */
  ghost function KeptIn(ns: seq<Node>, nodeById: map<string, NodeRef>, valid: set<string>): string -> set<string> {
    d => if d in nodeById && nodeById[d] < |ns| then Filter(valid, Ids(ns, Ancestors(ns, nodeById[d]))) else {}
  }

  /** The descriptors `get_annotations` accepts: every node of the chosen categories, or
      every registered identifier when no category is chosen. */
  function Selected(nodesByCategory: map<string, set<string>>, nodeById: map<string, NodeRef>, chosen: seq<string>): set<string> {
    if |chosen| > 0 then set c, id | c in chosen && id in Get(nodesByCategory, c) :: id
    else nodeById.Keys
  }

  /** The pairs of the objects in `objs` with their listed descriptors that are in `sel`. */
  ghost function PairsFor(data: map<string, seq<string>>, objs: set<string>, sel: set<string>): set<(string, string)> {
    set o, d | o in objs && o in data && d in data[o] && d in sel :: (o, d)
  }

  lemma PairsForAdd(data: map<string, seq<string>>, objs: set<string>, sel: set<string>, o: string)
    requires o in data
    ensures PairsFor(data, objs + {o}, sel) == PairsFor(data, objs, sel) + PairsOf(o, (set d | d in data[o]) * sel)
  {
  }

  lemma BuiltEmpty(kept: string -> set<string>, valid: set<string>)
    ensures Built({}, kept, valid) == AnnState(map[], map[], map[], valid)
  {
    assert PairObjs({}) == {};
    assert AllKept({}, kept) == {};
  }

  /** The category table after looking up every chosen category in it (a defaultdict). */
  function AfterLookups(m: map<string, set<string>>, chosen: seq<string>): map<string, set<string>> {
    map c | c in m.Keys + (set x | x in chosen) :: Get(m, c)
  }

  /** The first half of `get_annotations`: the union of the chosen categories' nodes (each
      lookup inserting an empty entry for an unseen category), or every identifier. */
  method SelectDescriptors(t: MeSHThesaurus, chosen: seq<string>) returns (sel: set<string>)
    modifies t`nodesByCategory
    ensures t.nodesByCategory == AfterLookups(old(t.nodesByCategory), chosen)
    ensures sel == Selected(old(t.nodesByCategory), t.nodeById, chosen)
  {
    if |chosen| == 0 {
      assert AfterLookups(old(t.nodesByCategory), chosen) == old(t.nodesByCategory);
      return t.nodeById.Keys;
    }
    sel := {};
    for k := 0 to |chosen|
      invariant sel == set c, id | c in chosen[..k] && id in Get(old(t.nodesByCategory), c) :: id
      invariant t.nodesByCategory == AfterLookups(old(t.nodesByCategory), chosen[..k])
    {
      assert forall x :: x in chosen[..k + 1] <==> x in chosen[..k] || x == chosen[k];
      var found := t.GetNodesByCategory(chosen[k]);
      sel := sel + found;
    }
    assert chosen[..|chosen|] == chosen;
  }

  /** The pairs of `o` with each descriptor of `ds`. */
  function PairsOf(o: string, ds: set<string>): set<(string, string)> {
    set d | d in ds :: (o, d)
  }

  lemma PairsOfAdd(o: string, ds: set<string>, d: string)
    ensures PairsOf(o, ds + {d}) == PairsOf(o, ds) + {(o, d)}
  {
  }

  /** Taking one more element out of `rest` adds it to what has been taken. */
  lemma SetMinusStep<T>(all: set<T>, rest: set<T>, x: T)
    requires x in rest && rest <= all
    ensures all - (rest - {x}) == (all - rest) + {x}
  {
  }

  /** One turn of the inner loop of `get_annotations`, on the states. */
  lemma AnnotateObjectStep(ns: seq<Node>, nodeById: map<string, NodeRef>, valid: set<string>, kept: string -> set<string>,
                           done: set<(string, string)>, now: set<(string, string)>, o: string, ids: set<string>, rest: set<string>, d: string)
    requires kept == KeptIn(ns, nodeById, valid)
    requires d in rest && rest <= ids && d in nodeById && nodeById[d] < |ns| && Passes(valid, d)
    requires now == done + PairsOf(o, ids - rest)
    ensures AnnotateSpec(Built(now, kept, valid), o, d, Ids(ns, Ancestors(ns, nodeById[d]))) == Built(now + {(o, d)}, kept, valid)
    ensures now + {(o, d)} == done + PairsOf(o, ids - (rest - {d}))
  {
    BuiltStep(now, kept, valid, o, d, Ids(ns, Ancestors(ns, nodeById[d])));
    SetMinusStep(ids, rest, d);
    PairsOfAdd(o, ids - rest, d);
  }

  /** The inner loop of `get_annotations`: annotates `o` with each descriptor of `ids`;
      fails (KeyError) when one of them has no node. */
  method AnnotateObject(annot: Annotation, t: MeSHThesaurus, o: string, ids: set<string>,
                        ghost done: set<(string, string)>, ghost kept: string -> set<string>) returns (ok: bool)
    requires t.Valid()
    requires forall d :: d in ids ==> Passes(annot.valid, d)
    requires kept == KeptIn(t.nodes, t.nodeById, annot.valid)
    requires annot.State() == Built(done, kept, annot.valid)
    modifies annot`objects, annot`descriptors, annot`directAnnotations
    ensures ok <==> ids <= t.nodeById.Keys
    ensures ok ==> annot.State() == Built(done + PairsOf(o, ids), kept, annot.valid)
  {
    var rest := ids;
    ghost var now := done;
    while rest != {}
      invariant rest <= ids
      invariant ids - rest <= t.nodeById.Keys
      invariant now == done + PairsOf(o, ids - rest)
      invariant annot.State() == Built(now, kept, annot.valid)
      decreases rest
    {
      var d :| d in rest;
      if d !in t.nodeById {
        return false;
      }
      var h := t.nodeById[d];
      annot.Annotate(o, d, t.nodes, h);
      AnnotateObjectStep(t.nodes, t.nodeById, annot.valid, kept, done, now, o, ids, rest, d);
      now := now + {(o, d)};
      rest := rest - {d};
    }
    assert ids - rest == ids;
    return true;
  }

  /** The outer loop of `get_annotations`: annotates every object of `data` with its listed
      descriptors that are in `sel`; fails when one of those has no node. */
  method AnnotateAll(annot: Annotation, t: MeSHThesaurus, data: map<string, seq<string>>, sel: set<string>,
                     ghost kept: string -> set<string>) returns (ok: bool)
    requires t.Valid()
    requires forall d :: d in sel ==> Passes(annot.valid, d)
    requires kept == KeptIn(t.nodes, t.nodeById, annot.valid)
    requires annot.State() == Built({}, kept, annot.valid)
    modifies annot`objects, annot`descriptors, annot`directAnnotations
    ensures ok <==> forall p :: p in PairsFor(data, data.Keys, sel) ==> p.1 in t.nodeById
    ensures ok ==> annot.State() == Built(PairsFor(data, data.Keys, sel), kept, annot.valid)
  {
    var todo := data.Keys;
    ghost var done: set<(string, string)> := {};
    assert data.Keys - todo == {};
    while todo != {}
      invariant todo <= data.Keys
      invariant done == PairsFor(data, data.Keys - todo, sel)
      invariant forall p :: p in done ==> p.1 in t.nodeById
      invariant annot.State() == Built(done, kept, annot.valid)
      decreases todo
    {
      var o :| o in todo;
      var ids := (set d | d in data[o]) * sel;
      ok := AnnotateObject(annot, t, o, ids, done, kept);
      if !ok {
        var d :| d in ids && d !in t.nodeById;
        assert (o, d) in PairsFor(data, data.Keys, sel);
        return false;
      }
      SetMinusStep(data.Keys, todo, o);
      PairsForAdd(data, data.Keys - todo, sel, o);
      done := done + PairsOf(o, ids);
      todo := todo - {o};
    }
    assert data.Keys - todo == data.Keys;
    return true;
  }

  /** `AnnotationParser.get_annotations`: annotates each object with each of its listed
      descriptors that is selected; KeyError when a selected descriptor has no node. */
  method GetAnnotations(data: map<string, seq<string>>, t: MeSHThesaurus, chosen: seq<string>)
    returns (r: Result<Annotation>)
    requires t.Valid()
    modifies t`nodesByCategory
    ensures t.nodesByCategory == AfterLookups(old(t.nodesByCategory), chosen)
    ensures var sel := Selected(old(t.nodesByCategory), t.nodeById, chosen);
      r.Ok? <==> forall p :: p in PairsFor(data, data.Keys, sel) ==> p.1 in t.nodeById
    ensures r.Err? ==> r.error == KeyError
    ensures r.Ok? ==>
      var sel := Selected(old(t.nodesByCategory), t.nodeById, chosen);
      var valid := if |chosen| > 0 then sel else {};
      && fresh(r.value)
      && Consistent(r.value.State())
      && r.value.State() == Built(PairsFor(data, data.Keys, sel), KeptIn(t.nodes, t.nodeById, valid), valid)
  {
    var annot := new Annotation();
    var sel := SelectDescriptors(t, chosen);
    if |chosen| > 0 {
      annot.SetValidDescriptors(sel);
    }
    ghost var kept := KeptIn(t.nodes, t.nodeById, annot.valid);
    BuiltEmpty(kept, annot.valid);
    var ok := AnnotateAll(annot, t, data, sel, kept);
    if !ok {
      return Err(KeyError);
    }
    BuiltConsistent(PairsFor(data, data.Keys, sel), kept, annot.valid);
    r := Ok(annot);
  }
}
