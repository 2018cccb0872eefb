/** The dictionaries the scripts build line by line: a `defaultdict(list)` whose lists
    are extended and a `defaultdict(set)` whose sets grow, each read from rows that are
    either an error (which stops the read), skipped, or an entry. */
module Tables {
  import opened Wrappers
  import opened Strings

  // ----- lists appended under keys -----

  /** The `defaultdict(list)` built by a loop that, row by row, either stops with an
      error, skips the row, or extends the list under a key. */
  function Appended<K, V>(es: seq<Result<Option<(K, seq<V>)>>>): (r: Result<map<K, seq<V>>>)
    ensures r.Err? ==> exists k :: 0 <= k < |es| && es[k] == Err(r.error)
  {
    if |es| == 0 then Ok(map[])
    else
      var init := Appended(es[..|es| - 1]);
      var e := es[|es| - 1];
      if init.Err? then
        assert es[..|es| - 1] <= es;
        init
      else if e.Err? then Err(e.error)
      else if e.value.None? then init
      else Ok(init.value[e.value.value.0 := GetList(init.value, e.value.value.0) + e.value.value.1])
  }

  lemma {:induction false} AppendedFails<K, V>(es: seq<Result<Option<(K, seq<V>)>>>)
    ensures Appended(es).Err? <==> exists k :: 0 <= k < |es| && es[k].Err?
  {
    if |es| > 0 {
      var init := es[..|es| - 1];
      AppendedFails(init);
      assert forall k :: 0 <= k < |init| ==> init[k] == es[k];
    }
  }

  /** The row extends the list under `u`. */
  ghost predicate Keyed<K, V>(e: Result<Option<(K, seq<V>)>>, u: K) {
    e.Ok? && e.value.Some? && e.value.value.0 == u
  }

  /** The keys are those of the rows not skipped, and a key holds at least what its rows
      appended. */
  lemma {:induction false} AppendedKeys<K, V>(es: seq<Result<Option<(K, seq<V>)>>>, u: K)
    requires Appended(es).Ok?
    ensures u in Appended(es).value <==> exists k :: 0 <= k < |es| && Keyed(es[k], u)
    ensures forall k :: 0 <= k < |es| && Keyed(es[k], u) ==> |es[k].value.value.1| <= |Appended(es).value[u]|
  {
    if |es| > 0 {
      var init := es[..|es| - 1];
      AppendedKeys(init, u);
      assert forall k :: 0 <= k < |init| ==> init[k] == es[k];
    }
  }

  lemma {:induction false} AppendedPrefixFails<K, V>(es: seq<Result<Option<(K, seq<V>)>>>, n: nat)
    requires n <= |es| && Appended(es[..n]).Err?
    ensures Appended(es) == Appended(es[..n])
    decreases |es| - n
  {
    if n < |es| {
      assert es[..n + 1][..n] == es[..n];
      AppendedPrefixFails(es, n + 1);
    } else {
      assert es[..n] == es;
    }
  }

  /** One more row, not an error. */
  lemma AppendedStep<K, V>(es: seq<Result<Option<(K, seq<V>)>>>, k: nat, values: map<K, seq<V>>)
    requires k < |es| && Appended(es[..k]) == Ok(values) && es[k].Ok?
    ensures Appended(es[..k + 1]) == Ok(if es[k].value.None? then values
      else values[es[k].value.value.0 := GetList(values, es[k].value.value.0) + es[k].value.value.1])
  {
    assert es[..k + 1][..k] == es[..k];
  }

  /** A failing row after rows that did not fail stops the read with its error. */
  lemma AppendedStops<K, V>(es: seq<Result<Option<(K, seq<V>)>>>, k: nat)
    requires k < |es| && Appended(es[..k]).Ok? && es[k].Err?
    ensures Appended(es) == Err(es[k].error)
  {
    assert es[..k + 1][..k] == es[..k];
    AppendedPrefixFails(es, k + 1);
  }

  /** What the rows extend the list under `u` with, concatenated in file order. */
  ghost function RowsFor<K, V>(es: seq<Result<Option<(K, seq<V>)>>>, u: K): seq<V> {
    if |es| == 0 then []
    else RowsFor(es[..|es| - 1], u) + if Keyed(es[|es| - 1], u) then es[|es| - 1].value.value.1 else []
  }

  /** The list under each key is what that key's rows added, in order, duplicates kept. */
  lemma {:induction false} AppendedList<K, V>(es: seq<Result<Option<(K, seq<V>)>>>, u: K)
    requires Appended(es).Ok?
    ensures GetList(Appended(es).value, u) == RowsFor(es, u)
  {
    if |es| > 0 {
      var init := es[..|es| - 1];
      AppendedList(init, u);
      var e := es[|es| - 1];
      if e.Ok? && e.value.Some? && e.value.value.0 != u {
        assert GetList(Appended(es).value, u) == GetList(Appended(init).value, u);
      }
    }
  }

  lemma {:induction false} RowsForMembers<K, V>(es: seq<Result<Option<(K, seq<V>)>>>, u: K, x: V)
    ensures x in RowsFor(es, u) <==> exists k :: 0 <= k < |es| && Keyed(es[k], u) && x in es[k].value.value.1
  {
    if |es| > 0 {
      var init := es[..|es| - 1];
      RowsForMembers(init, u, x);
      assert forall k :: 0 <= k < |init| ==> init[k] == es[k];
    }
  }

  // ----- sets grown under keys -----

  /** The `defaultdict(set)` built by a loop that, row by row, either stops with an
      error, skips the row, or adds a value to the set under a key. */
  function Grouped<K, V>(es: seq<Result<Option<(K, V)>>>): (r: Result<map<K, set<V>>>)
    ensures r.Err? ==> exists k :: 0 <= k < |es| && es[k] == Err(r.error)
  {
    if |es| == 0 then Ok(map[])
    else
      var init := Grouped(es[..|es| - 1]);
      var e := es[|es| - 1];
      if init.Err? then
        assert es[..|es| - 1] <= es;
        init
      else if e.Err? then Err(e.error)
      else if e.value.None? then init
      else
        var (key, v) := e.value.value;
        Ok(init.value[key := GetSet(init.value, key) + {v}])
  }

  lemma {:induction false} GroupedFails<K, V>(es: seq<Result<Option<(K, V)>>>)
    ensures Grouped(es).Err? <==> exists k :: 0 <= k < |es| && es[k].Err?
  {
    if |es| > 0 {
      var init := es[..|es| - 1];
      GroupedFails(init);
      assert forall k :: 0 <= k < |init| ==> init[k] == es[k];
    }
  }

  /** Otherwise `v` is in the set under `u` exactly when some row is the entry `(u, v)`. */
  lemma {:induction false} GroupedMembers<K, V>(es: seq<Result<Option<(K, V)>>>, u: K, v: V)
    requires Grouped(es).Ok?
    ensures u in Grouped(es).value ==> Grouped(es).value[u] != {}
    ensures (u in Grouped(es).value && v in Grouped(es).value[u]) <==> exists k :: 0 <= k < |es| && es[k] == Ok(Some((u, v)))
  {
    if |es| > 0 {
      var init := es[..|es| - 1];
      GroupedMembers(init, u, v);
      assert forall k :: 0 <= k < |init| ==> init[k] == es[k];
      var e := es[|es| - 1];
      if e.Ok? && e.value.Some? {
        var (key, w) := e.value.value;
        assert e == Ok(Some((key, w)));
        assert key == u ==> w in Grouped(es).value[u];
        assert key != u ==> GetSet(Grouped(es).value, u) == GetSet(Grouped(init).value, u);
      }
    }
  }

  lemma {:induction false} GroupedPrefixFails<K, V>(es: seq<Result<Option<(K, V)>>>, n: nat)
    requires n <= |es| && Grouped(es[..n]).Err?
    ensures Grouped(es) == Grouped(es[..n])
    decreases |es| - n
  {
    if n < |es| {
      assert es[..n + 1][..n] == es[..n];
      GroupedPrefixFails(es, n + 1);
    } else {
      assert es[..n] == es;
    }
  }

  /** One more row, not an error. */
  lemma GroupedStep<K, V>(es: seq<Result<Option<(K, V)>>>, k: nat, values: map<K, set<V>>)
    requires k < |es| && Grouped(es[..k]) == Ok(values) && es[k].Ok?
    ensures Grouped(es[..k + 1]) == Ok(if es[k].value.None? then values
      else values[es[k].value.value.0 := GetSet(values, es[k].value.value.0) + {es[k].value.value.1}])
  {
    assert es[..k + 1][..k] == es[..k];
  }

  /** A failing row after rows that did not fail stops the read with its error. */
  lemma GroupedStops<K, V>(es: seq<Result<Option<(K, V)>>>, k: nat)
    requires k < |es| && Grouped(es[..k]).Ok? && es[k].Err?
    ensures Grouped(es) == Err(es[k].error)
  {
    assert es[..k + 1][..k] == es[..k];
    GroupedPrefixFails(es, k + 1);
  }

  // ----- a set grown row by row -----

  /** The set built by a loop that, row by row, either stops with an error or adds the
      row's elements. */
  function Collected<V>(es: seq<Result<seq<V>>>): (r: Result<set<V>>)
    ensures r.Err? ==> exists k :: 0 <= k < |es| && es[k] == Err(r.error)
  {
    if |es| == 0 then Ok({})
    else
      var init := Collected(es[..|es| - 1]);
      var e := es[|es| - 1];
      if init.Err? then
        assert es[..|es| - 1] <= es;
        init
      else if e.Err? then Err(e.error)
      else Ok(init.value + Elems(e.value))
  }

  lemma {:induction false} CollectedFails<V>(es: seq<Result<seq<V>>>)
    ensures Collected(es).Err? <==> exists k :: 0 <= k < |es| && es[k].Err?
  {
    if |es| > 0 {
      var init := es[..|es| - 1];
      CollectedFails(init);
      assert forall k :: 0 <= k < |init| ==> init[k] == es[k];
    }
  }

  /** Otherwise the set holds exactly what the rows added. */
  lemma {:induction false} CollectedMembers<V>(es: seq<Result<seq<V>>>, x: V)
    requires Collected(es).Ok?
    ensures x in Collected(es).value <==> exists k :: 0 <= k < |es| && es[k].Ok? && x in es[k].value
  {
    if |es| > 0 {
      var init := es[..|es| - 1];
      CollectedMembers(init, x);
      assert forall k :: 0 <= k < |init| ==> init[k] == es[k];
    }
  }

  /** When every row adds one element, the set holds exactly the elements of the rows. */
  lemma CollectedSingles<V>(es: seq<Result<seq<V>>>, x: V)
    requires Collected(es).Ok? && forall k :: 0 <= k < |es| && es[k].Ok? ==> |es[k].value| == 1
    ensures x in Collected(es).value <==> exists k :: 0 <= k < |es| && es[k] == Ok([x])
  {
    CollectedMembers(es, x);
    if x in Collected(es).value {
      var k :| 0 <= k < |es| && es[k].Ok? && x in es[k].value;
      assert es[k].value == [x];
    }
  }

  /** One more row that adds its elements. */
  lemma CollectedStep<V>(es: seq<Result<seq<V>>>, k: nat, values: set<V>)
    requires k < |es| && Collected(es[..k]) == Ok(values) && es[k].Ok?
    ensures Collected(es[..k + 1]) == Ok(values + Elems(es[k].value))
  {
    assert es[..k + 1][..k] == es[..k];
  }

  lemma {:induction false} CollectedPrefixFails<V>(es: seq<Result<seq<V>>>, n: nat)
    requires n <= |es| && Collected(es[..n]).Err?
    ensures Collected(es) == Collected(es[..n])
    decreases |es| - n
  {
    if n < |es| {
      assert es[..n + 1][..n] == es[..n];
      CollectedPrefixFails(es, n + 1);
    } else {
      assert es[..n] == es;
    }
  }

  /** A failing row after rows that did not fail stops the read with its error. */
  lemma CollectedStops<V>(es: seq<Result<seq<V>>>, k: nat)
    requires k < |es| && Collected(es[..k]).Ok? && es[k].Err?
    ensures Collected(es) == Err(es[k].error)
  {
    assert es[..k + 1][..k] == es[..k];
    CollectedPrefixFails(es, k + 1);
  }

  // ----- a dict assigned row by row -----

  /** The dict built by a loop that, row by row, either stops with an error, skips the
      row, or assigns `d[key] = value`, a later row overwriting an earlier one. */
  function Assigned<K, V>(es: seq<Result<Option<(K, V)>>>): (r: Result<map<K, V>>)
    ensures r.Err? ==> exists k :: 0 <= k < |es| && es[k] == Err(r.error)
  {
    if |es| == 0 then Ok(map[])
    else
      var init := Assigned(es[..|es| - 1]);
      var e := es[|es| - 1];
      if init.Err? then
        assert es[..|es| - 1] <= es;
        init
      else if e.Err? then Err(e.error)
      else if e.value.None? then init
      else Ok(init.value[e.value.value.0 := e.value.value.1])
  }

  lemma {:induction false} AssignedFails<K, V>(es: seq<Result<Option<(K, V)>>>)
    ensures Assigned(es).Err? <==> exists k :: 0 <= k < |es| && es[k].Err?
  {
    if |es| > 0 {
      var init := es[..|es| - 1];
      AssignedFails(init);
      assert forall k :: 0 <= k < |init| ==> init[k] == es[k];
    }
  }

  /** The row assigns to key `u`. */
  ghost predicate Sets<K, V>(e: Result<Option<(K, V)>>, u: K) {
    e.Ok? && e.value.Some? && e.value.value.0 == u
  }

  /** Otherwise the keys are those some row assigns to, and each holds the value of the
      last row that assigns to it. */
  lemma {:induction false} AssignedLast<K, V>(es: seq<Result<Option<(K, V)>>>, u: K)
    requires Assigned(es).Ok?
    ensures u in Assigned(es).value <==> exists k :: 0 <= k < |es| && Sets(es[k], u)
    ensures u in Assigned(es).value ==> exists k :: 0 <= k < |es| && es[k] == Ok(Some((u, Assigned(es).value[u])))
                                                 && forall j :: k < j < |es| ==> !Sets(es[j], u)
  {
    if |es| > 0 {
      var init := es[..|es| - 1];
      AssignedLast(init, u);
      assert forall k :: 0 <= k < |init| ==> init[k] == es[k];
      var e, n := es[|es| - 1], |es| - 1;
      if Sets(e, u) {
        assert e == Ok(Some((u, Assigned(es).value[u])));
      } else if u in Assigned(es).value {
        assert Assigned(es).value[u] == Assigned(init).value[u];
        var k :| 0 <= k < |init| && init[k] == Ok(Some((u, Assigned(init).value[u])))
                 && forall j :: k < j < |init| ==> !Sets(init[j], u);
        assert es[k] == Ok(Some((u, Assigned(es).value[u])));
      }
    }
  }

  /** The order a dict iterates its keys in: the order each was first assigned; a later
      assignment to a key leaves its place unchanged. */
  function KeyOrder<K(==), V>(es: seq<Result<Option<(K, V)>>>): seq<K> {
    if |es| == 0 then []
    else
      var init := KeyOrder(es[..|es| - 1]);
      var e := es[|es| - 1];
      if e.Ok? && e.value.Some? && e.value.value.0 !in init then init + [e.value.value.0] else init
  }

  /** One more row that assigns `value` to `key`. */
  lemma AssignedOrderStep<K, V>(es: seq<Result<Option<(K, V)>>>, k: nat, values: map<K, V>, keys: seq<K>, key: K, value: V)
    requires k < |es| && Assigned(es[..k]) == Ok(values) && KeyOrder(es[..k]) == keys
    requires es[k] == Ok(Some((key, value)))
    ensures Assigned(es[..k + 1]) == Ok(values[key := value])
    ensures KeyOrder(es[..k + 1]) == if key in keys then keys else keys + [key]
  {
    assert es[..k + 1][..k] == es[..k];
  }

  /** It lists every key of the dict once. */
  lemma {:induction false} KeyOrderKeys<K, V>(es: seq<Result<Option<(K, V)>>>)
    requires Assigned(es).Ok?
    ensures Distinct(KeyOrder(es))
    ensures forall u :: u in KeyOrder(es) <==> u in Assigned(es).value
  {
    if |es| > 0 {
      var init := es[..|es| - 1];
      KeyOrderKeys(init);
    }
  }

  lemma {:induction false} AssignedPrefixFails<K, V>(es: seq<Result<Option<(K, V)>>>, n: nat)
    requires n <= |es| && Assigned(es[..n]).Err?
    ensures Assigned(es) == Assigned(es[..n])
    decreases |es| - n
  {
    if n < |es| {
      assert es[..n + 1][..n] == es[..n];
      AssignedPrefixFails(es, n + 1);
    } else {
      assert es[..n] == es;
    }
  }

  /** One more row, not an error. */
  lemma AssignedStep<K, V>(es: seq<Result<Option<(K, V)>>>, k: nat, values: map<K, V>)
    requires k < |es| && Assigned(es[..k]) == Ok(values) && es[k].Ok?
    ensures Assigned(es[..k + 1]) == Ok(if es[k].value.None? then values
      else values[es[k].value.value.0 := es[k].value.value.1])
  {
    assert es[..k + 1][..k] == es[..k];
  }

  /** A failing row after rows that did not fail stops the read with its error. */
  lemma AssignedStops<K, V>(es: seq<Result<Option<(K, V)>>>, k: nat)
    requires k < |es| && Assigned(es[..k]).Ok? && es[k].Err?
    ensures Assigned(es) == Err(es[k].error)
  {
    assert es[..k + 1][..k] == es[..k];
    AssignedPrefixFails(es, k + 1);
  }

  // ----- lines written row by row -----

  /** The lines written by a loop that, row by row, either stops with an error, writes
      nothing, or writes one line. */
  function Emitted<T>(es: seq<Result<Option<T>>>): (r: Result<seq<T>>)
    ensures r.Err? ==> exists k :: 0 <= k < |es| && es[k] == Err(r.error)
    ensures r.Ok? ==> |r.value| <= |es|
  {
    if |es| == 0 then Ok([])
    else
      var init := Emitted(es[..|es| - 1]);
      var e := es[|es| - 1];
      if init.Err? then
        assert es[..|es| - 1] <= es;
        init
      else if e.Err? then Err(e.error)
      else if e.value.None? then init
      else Ok(init.value + [e.value.value])
  }

  lemma {:induction false} EmittedFails<T>(es: seq<Result<Option<T>>>)
    ensures Emitted(es).Err? <==> exists k :: 0 <= k < |es| && es[k].Err?
  {
    if |es| > 0 {
      var init := es[..|es| - 1];
      EmittedFails(init);
      assert forall k :: 0 <= k < |init| ==> init[k] == es[k];
    }
  }

  /** Otherwise a line is written exactly when some row writes it. */
  lemma {:induction false} EmittedMembers<T>(es: seq<Result<Option<T>>>, x: T)
    requires Emitted(es).Ok?
    ensures x in Emitted(es).value <==> exists k :: 0 <= k < |es| && es[k] == Ok(Some(x))
  {
    if |es| > 0 {
      var init := es[..|es| - 1];
      EmittedMembers(init, x);
      assert forall k :: 0 <= k < |init| ==> init[k] == es[k];
    }
  }

  lemma {:induction false} EmittedPrefixFails<T>(es: seq<Result<Option<T>>>, n: nat)
    requires n <= |es| && Emitted(es[..n]).Err?
    ensures Emitted(es) == Emitted(es[..n])
    decreases |es| - n
  {
    if n < |es| {
      assert es[..n + 1][..n] == es[..n];
      EmittedPrefixFails(es, n + 1);
    } else {
      assert es[..n] == es;
    }
  }

  /** One more row, not an error. */
  lemma EmittedStep<T>(es: seq<Result<Option<T>>>, k: nat, values: seq<T>)
    requires k < |es| && Emitted(es[..k]) == Ok(values) && es[k].Ok?
    ensures Emitted(es[..k + 1]) == Ok(if es[k].value.None? then values else values + [es[k].value.value])
  {
    assert es[..k + 1][..k] == es[..k];
  }

  /** A failing row after rows that did not fail stops the read with its error. */
  lemma EmittedStops<T>(es: seq<Result<Option<T>>>, k: nat)
    requires k < |es| && Emitted(es[..k]).Ok? && es[k].Err?
    ensures Emitted(es) == Err(es[k].error)
  {
    assert es[..k + 1][..k] == es[..k];
    EmittedPrefixFails(es, k + 1);
  }

  /** `d[k]` on a `defaultdict(set)`: the empty set for a missing key. */
  function GetSet<K, V>(m: map<K, set<V>>, k: K): set<V> {
    if k in m then m[k] else {}
  }
}
