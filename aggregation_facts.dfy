/** What the aggregation translation computes, stated independently of the
    table-building loops: the group-by results of all metrics are a list of
    writes (metric, key, value); the rows are the distinct keys in the order
    they were first written, and each cell holds the last value written for
    that metric and key, or null. */
module AggregationFacts {
  import opened Protocol
  import opened Helper
  import opened Translation

  datatype Write = Write(metric: nat, key: Row, value: Value)

  /** The key a group value list is stored under (the repaired list). */
  function RepairedKey(group: seq<Value>, n: nat): Row {
    match Repair(group, n)
    case Ok(key) => key
    case Err(_) => group
  }

  function EntryWrites(gby: seq<Value>, i: nat, es: seq<GroupByEntry>): (ws: seq<Write>)
    ensures |ws| == |es|
    ensures forall k :: 0 <= k < |ws| ==> ws[k].metric == i
  {
    seq(|es|, k requires 0 <= k < |es| => Write(i, RepairedKey(es[k].group, |gby|), es[k].value))
  }

  /** The writes of metric `i`: one per group-by entry, or one under the empty
      key for a global value. */
  function MetricWrites(gby: seq<Value>, m: AggregationResult, i: nat): (ws: seq<Write>)
    ensures forall k :: 0 <= k < |ws| ==> ws[k].metric == i
  {
    match m.body
    case GroupBy(es) => EntryWrites(gby, i, es)
    case Global(v) => [Write(i, [], v)]
  }

  ghost predicate MetricsBelow(ws: seq<Write>, nm: nat) {
    forall k :: 0 <= k < |ws| ==> ws[k].metric < nm
  }

  /** The writes of metrics ms[i..], in order. */
  function AllWrites(gby: seq<Value>, ms: seq<AggregationResult>, i: nat): (ws: seq<Write>)
    requires i <= |ms|
    ensures MetricsBelow(ws, |ms|)
    decreases |ms| - i
  {
    if i == |ms| then []
    else
      var head := MetricWrites(gby, ms[i], i);
      var tail := AllWrites(gby, ms, i + 1);
      assert forall k :: 0 <= k < |head + tail| ==> (head + tail)[k] == if k < |head| then head[k] else tail[k - |head|];
      head + tail
  }

  function Keys(ws: seq<Write>): (ks: seq<Row>)
    ensures |ks| == |ws| && forall k :: 0 <= k < |ws| ==> ks[k] == ws[k].key
  {
    seq(|ws|, k requires 0 <= k < |ws| => ws[k].key)
  }

  /** The distinct elements of `ks` in order of first occurrence. */
  function FirstSeen(ks: seq<Row>): (r: seq<Row>)
    ensures forall x :: x in r <==> x in ks
    ensures forall a, b :: 0 <= a < b < |r| ==> r[a] != r[b]
    decreases |ks|
  {
    if ks == [] then []
    else
      var init := ks[..|ks| - 1];
      assert ks == init + [ks[|ks| - 1]];
      var d := FirstSeen(init);
      if ks[|ks| - 1] in d then d else d + [ks[|ks| - 1]]
  }

  /** The value most recently written for `metric` under `key`; null if none. */
  function LastWrite(ws: seq<Write>, metric: nat, key: Row): Value
    decreases |ws|
  {
    if ws == [] then Null
    else
      var w := ws[|ws| - 1];
      if w.metric == metric && w.key == key then w.value else LastWrite(ws[..|ws| - 1], metric, key)
  }

  /** The metric cells of the row of `key`. */
  function RowValues(ws: seq<Write>, nm: nat, key: Row): (r: Row)
    ensures |r| == nm && forall i :: 0 <= i < nm ==> r[i] == LastWrite(ws, i, key)
  {
    seq(nm, i requires 0 <= i < nm => LastWrite(ws, i, key))
  }

  /** The table obtained by performing the writes one after another. */
  function Replay(ws: seq<Write>, nm: nat): (t: Table)
    requires MetricsBelow(ws, nm)
    ensures SlotsFit(t, nm) && KeysListed(t)
    decreases |ws|
  {
    if ws == [] then EmptyTable
    else
      var w := ws[|ws| - 1];
      Put(Replay(ws[..|ws| - 1], nm), nm, w.key, w.metric, w.value)
  }

  // Two sequence identities, kept as lemmas so that the replay proofs below
  // receive them as plain facts rather than proving them in place.

  lemma SliceCons<T>(s: seq<T>, k: nat)
    requires k < |s|
    ensures s[k..] == [s[k]] + s[k + 1..]
  {
  }

  lemma AppendAssoc<T>(a: seq<T>, b: seq<T>, c: seq<T>)
    ensures (a + b) + c == a + (b + c)
  {
  }

  /** Replaying one more write is one more Put. */
  lemma ReplaySnoc(done: seq<Write>, w: Write, nm: nat)
    requires MetricsBelow(done, nm) && w.metric < nm
    ensures MetricsBelow(done + [w], nm)
    ensures Replay(done + [w], nm) == Put(Replay(done, nm), nm, w.key, w.metric, w.value)
  {
    var next := done + [w];
    assert next[..|next| - 1] == done;
  }

  lemma {:induction false} LastWriteUnwritten(ws: seq<Write>, metric: nat, key: Row)
    requires key !in Keys(ws)
    ensures LastWrite(ws, metric, key) == Null
    decreases |ws|
  {
    if ws != [] {
      var init := ws[..|ws| - 1];
      assert Keys(init) == Keys(ws)[..|ws| - 1];
      LastWriteUnwritten(init, metric, key);
    }
  }

  lemma {:induction false} ReplayDomain(ws: seq<Write>, nm: nat)
    requires MetricsBelow(ws, nm)
    ensures forall key :: key in Replay(ws, nm).slots <==> key in Keys(ws)
    decreases |ws|
  {
    if ws != [] {
      var init := ws[..|ws| - 1];
      ReplayDomain(init, nm);
      assert Keys(ws) == Keys(init) + [ws[|ws| - 1].key];
    }
  }

  lemma {:induction false} ReplayKeys(ws: seq<Write>, nm: nat)
    requires MetricsBelow(ws, nm)
    ensures Replay(ws, nm).keys == FirstSeen(Keys(ws))
    decreases |ws|
  {
    if ws != [] {
      var init := ws[..|ws| - 1];
      ReplayKeys(init, nm);
      ReplayDomain(init, nm);
      assert Keys(ws)[..|ws| - 1] == Keys(init);
    }
  }

  lemma {:induction false} ReplaySlots(ws: seq<Write>, nm: nat)
    requires MetricsBelow(ws, nm)
    ensures forall key :: key in Replay(ws, nm).slots ==> Replay(ws, nm).slots[key] == RowValues(ws, nm, key)
    decreases |ws|
  {
    if ws != [] {
      var init := ws[..|ws| - 1];
      var w := ws[|ws| - 1];
      ReplaySlots(init, nm);
      ReplayDomain(init, nm);
      var t := Replay(init, nm);
      assert Replay(ws, nm) == Put(t, nm, w.key, w.metric, w.value);
      forall key | key in Replay(ws, nm).slots
        ensures Replay(ws, nm).slots[key] == RowValues(ws, nm, key)
      {
        var row := Replay(ws, nm).slots[key];
        forall i | 0 <= i < nm
          ensures row[i] == LastWrite(ws, i, key)
        {
          assert LastWrite(ws, i, key) == if w.metric == i && w.key == key then w.value else LastWrite(init, i, key);
          if key != w.key {
            assert row == t.slots[key];
          } else if key in t.slots {
            assert row == t.slots[key][w.metric := w.value];
          } else {
            LastWriteUnwritten(init, i, key);
            assert row == Nulls(nm)[w.metric := w.value];
          }
        }
      }
    }
  }

  /** Replaying writes gives the keys in order of first write, and in every
      cell the last value written there (null when nothing was). */
  lemma ReplayMeaning(ws: seq<Write>, nm: nat)
    requires MetricsBelow(ws, nm)
    ensures Replay(ws, nm).keys == FirstSeen(Keys(ws))
    ensures forall key :: key in Replay(ws, nm).slots ==> Replay(ws, nm).slots[key] == RowValues(ws, nm, key)
  {
    ReplayKeys(ws, nm);
    ReplaySlots(ws, nm);
  }

  // ---------------------------------------------------------------------------
  // The table-building functions perform exactly these writes

  lemma {:induction false} AddEntriesReplays(t: Table, gby: seq<Value>, nm: nat, i: nat, es: seq<GroupByEntry>, k: nat, done: seq<Write>)
    requires MetricsBelow(done, nm) && t == Replay(done, nm) && i < nm && k <= |es|
    requires AddEntries(t, gby, nm, i, es, k).Ok?
    ensures MetricsBelow(done + EntryWrites(gby, i, es)[k..], nm)
    ensures AddEntries(t, gby, nm, i, es, k).value == Replay(done + EntryWrites(gby, i, es)[k..], nm)
    decreases |es| - k
  {
    var ews := EntryWrites(gby, i, es);
    if k == |es| {
      assert done + ews[k..] == done;
    } else {
      var key := Repair(es[k].group, |gby|).value;
      var w := Write(i, key, es[k].value);
      var next := done + [w];
      ReplaySnoc(done, w, nm);
      AddEntriesReplays(Put(t, nm, key, i, es[k].value), gby, nm, i, es, k + 1, next);
      assert ews[k] == w;
      SliceCons(ews, k);
      AppendAssoc(done, [w], ews[k + 1..]);
    }
  }

  lemma PutGlobal(t: Table, nm: nat, i: nat, v: Value)
    requires SlotsFit(t, nm) && i < nm
    ensures Put(WithGlobalKey(t, nm), nm, [], i, v) == Put(t, nm, [], i, v)
  {
    if [] !in t.slots {
      assert t.slots[[] := Nulls(nm)][[] := Nulls(nm)[i := v]] == t.slots[[] := Nulls(nm)[i := v]];
    }
  }

  lemma AddMetricReplays(t: Table, gby: seq<Value>, ms: seq<AggregationResult>, i: nat, done: seq<Write>)
    requires MetricsBelow(done, |ms|) && t == Replay(done, |ms|) && i < |ms|
    requires AddMetric(t, gby, ms, i).Ok?
    ensures MetricsBelow(done + MetricWrites(gby, ms[i], i), |ms|)
    ensures AddMetric(t, gby, ms, i).value == Replay(done + MetricWrites(gby, ms[i], i), |ms|)
  {
    match ms[i].body
    case GroupBy(es) =>
      AddEntriesReplays(t, gby, |ms|, i, es, 0, done);
      assert EntryWrites(gby, i, es)[0..] == EntryWrites(gby, i, es);
    case Global(v) =>
      ReplaySnoc(done, Write(i, [], v), |ms|);
      PutGlobal(t, |ms|, i, v);
  }

  lemma {:induction false} AddMetricsReplays(t: Table, gby: seq<Value>, ms: seq<AggregationResult>, i: nat, done: seq<Write>)
    requires MetricsBelow(done, |ms|) && t == Replay(done, |ms|) && i <= |ms|
    requires AddMetrics(t, gby, ms, i).Ok?
    ensures MetricsBelow(done + AllWrites(gby, ms, i), |ms|)
    ensures AddMetrics(t, gby, ms, i).value == Replay(done + AllWrites(gby, ms, i), |ms|)
    decreases |ms| - i
  {
    if i == |ms| {
      assert done + AllWrites(gby, ms, i) == done;
    } else {
      var mw := MetricWrites(gby, ms[i], i);
      AddMetricReplays(t, gby, ms, i, done);
      var t' := AddMetric(t, gby, ms, i).value;
      AddMetricsReplays(t', gby, ms, i + 1, done + mw);
      assert AllWrites(gby, ms, i) == mw + AllWrites(gby, ms, i + 1);
      AppendAssoc(done, mw, AllWrites(gby, ms, i + 1));
    }
  }

  /** The aggregation result set: the agreed group-by columns followed by the
      metric names; one row per distinct key in order of first appearance,
      holding the key's values and, per metric, the value last written for
      that key (null where the metric had no entry for it). */
  lemma AggregationRowsMeaning(ms: seq<AggregationResult>)
    requires AggregationResultSet(ms).Ok?
    ensures
      var gby := GroupByColumnNames(ms).value;
      var ws := AllWrites(gby, ms, 0);
      var keys := FirstSeen(Keys(ws));
      var rs := AggregationResultSet(ms).value;
      && rs.columns == gby + MetricNames(ms)
      && |rs.rows| == |keys|
      && forall r :: 0 <= r < |keys| ==>
           && |keys[r]| == |gby|
           && |rs.rows[r]| == |gby| + |ms|
           && rs.rows[r] == keys[r] + RowValues(ws, |ms|, keys[r])
  {
    var gby := GroupByColumnNames(ms).value;
    var ws := AllWrites(gby, ms, 0);
    AddMetricsReplays(EmptyTable, gby, ms, 0, []);
    assert [] + ws == ws;
    ReplayMeaning(ws, |ms|);
  }

  // ---------------------------------------------------------------------------
  // The key-width check when rows are read out never fails

  ghost predicate KeysOfWidth(t: Table, n: nat) {
    forall k :: k in t.slots ==> |k| == n
  }

  lemma {:induction false} AddEntriesWidth(t: Table, gby: seq<Value>, nm: nat, i: nat, es: seq<GroupByEntry>, k: nat)
    requires SlotsFit(t, nm) && i < nm && k <= |es| && KeysOfWidth(t, |gby|)
    requires AddEntries(t, gby, nm, i, es, k).Ok?
    ensures KeysOfWidth(AddEntries(t, gby, nm, i, es, k).value, |gby|)
    decreases |es| - k
  {
    if k < |es| {
      RepairSpec(es[k].group, |gby|);
      var key := Repair(es[k].group, |gby|).value;
      AddEntriesWidth(Put(t, nm, key, i, es[k].value), gby, nm, i, es, k + 1);
    }
  }

  lemma {:induction false} AddMetricsWidth(t: Table, gby: seq<Value>, ms: seq<AggregationResult>, i: nat)
    requires SlotsFit(t, |ms|) && i <= |ms| && KeysOfWidth(t, |gby|)
    requires AddMetrics(t, gby, ms, i).Ok?
    ensures KeysOfWidth(AddMetrics(t, gby, ms, i).value, |gby|)
    decreases |ms| - i
  {
    if i < |ms| {
      match ms[i].body {
        case GroupBy(es) =>
          AddEntriesWidth(t, gby, |ms|, i, es, 0);
        case Global(v) =>
      }
      AddMetricsWidth(AddMetric(t, gby, ms, i).value, gby, ms, i + 1);
    }
  }

  /** Once the group-by columns agree and every metric has been written, the
      rows can always be read out: execute's width check on each key is
      never the reason a translation fails. */
  lemma AggregationReadOutSucceeds(ms: seq<AggregationResult>)
    ensures AggregationResultSet(ms).Ok? <==>
      GroupByColumnNames(ms).Ok? && AddMetrics(EmptyTable, GroupByColumnNames(ms).value, ms, 0).Ok?
  {
    if GroupByColumnNames(ms).Ok? && AddMetrics(EmptyTable, GroupByColumnNames(ms).value, ms, 0).Ok? {
      AddMetricsWidth(EmptyTable, GroupByColumnNames(ms).value, ms, 0);
    }
  }

  // ---------------------------------------------------------------------------
  // Global aggregations

  lemma {:induction false} GroupByAfterGlobalFails(t: Table, gby: seq<Value>, ms: seq<AggregationResult>, i: nat, a: nat, b: nat)
    requires SlotsFit(t, |ms|) && i <= b < |ms| && a < b
    requires ms[a].body.Global? && ms[b].body.GroupBy?
    requires [] in t.slots || i <= a
    ensures AddMetrics(t, gby, ms, i).Err?
    decreases b - i
  {
    var m := AddMetric(t, gby, ms, i);
    if i < b && m.Ok? {
      GroupByAfterGlobalFails(m.value, gby, ms, i + 1, a, b);
    }
  }

  /** A global metric followed later by a group-by metric cannot be translated. */
  lemma GlobalBeforeGroupByFails(ms: seq<AggregationResult>, a: nat, b: nat)
    requires a < b < |ms| && ms[a].body.Global? && ms[b].body.GroupBy?
    ensures AggregationResultSet(ms).Err?
  {
    if GroupByColumnNames(ms).Ok? {
      GroupByAfterGlobalFails(EmptyTable, GroupByColumnNames(ms).value, ms, 0, a, b);
    }
  }

  lemma {:induction false} GlobalWithColumnsFailsFrom(t: Table, gby: seq<Value>, ms: seq<AggregationResult>, i: nat, a: nat)
    requires SlotsFit(t, |ms|) && i <= a < |ms| && ms[a].body.Global? && gby != []
    ensures AddMetrics(t, gby, ms, i).Err?
    decreases a - i
  {
    var m := AddMetric(t, gby, ms, i);
    if i < a && m.Ok? {
      GlobalWithColumnsFailsFrom(m.value, gby, ms, i + 1, a);
    }
  }

  /** A global metric cannot be translated alongside group-by columns. */
  lemma GlobalWithColumnsFails(ms: seq<AggregationResult>, a: nat)
    requires a < |ms| && ms[a].body.Global?
    requires GroupByColumnNames(ms).Ok? && GroupByColumnNames(ms).value != []
    ensures AggregationResultSet(ms).Err?
  {
    GlobalWithColumnsFailsFrom(EmptyTable, GroupByColumnNames(ms).value, ms, 0, a);
  }

  lemma {:induction false} NonEmptyGroupFailsInEntries(t: Table, nm: nat, i: nat, es: seq<GroupByEntry>, k: nat, e: nat)
    requires SlotsFit(t, nm) && i < nm && k <= e < |es| && es[e].group != []
    ensures AddEntries(t, [], nm, i, es, k).Err?
    decreases e - k
  {
    RepairSpec(es[k].group, 0);
    if k < e && Repair(es[k].group, 0).Ok? && HashableKey(Repair(es[k].group, 0).value) {
      var key := Repair(es[k].group, 0).value;
      NonEmptyGroupFailsInEntries(Put(t, nm, key, i, es[k].value), nm, i, es, k + 1, e);
    }
  }

  lemma {:induction false} NonEmptyGroupFailsFrom(t: Table, ms: seq<AggregationResult>, i: nat, a: nat, e: nat)
    requires SlotsFit(t, |ms|) && i <= a < |ms|
    requires ms[a].body.GroupBy? && e < |ms[a].body.entries| && ms[a].body.entries[e].group != []
    ensures AddMetrics(t, [], ms, i).Err?
    decreases a - i
  {
    if i == a {
      if [] !in t.slots {
        NonEmptyGroupFailsInEntries(t, |ms|, i, ms[a].body.entries, 0, e);
      }
    } else {
      var m := AddMetric(t, [], ms, i);
      if m.Ok? {
        NonEmptyGroupFailsFrom(m.value, ms, i + 1, a, e);
      }
    }
  }

  /** A global metric and a group-by metric with an entry whose group is not
      empty cannot be translated together, in either order. (Without
      group-by columns such an entry fails on its own; an entry with an empty
      group shares the global row's empty key and is accepted.) */
  lemma GlobalAndGroupByFail(ms: seq<AggregationResult>, a: nat, b: nat, e: nat)
    requires a < |ms| && b < |ms| && ms[a].body.Global?
    requires ms[b].body.GroupBy? && e < |ms[b].body.entries| && ms[b].body.entries[e].group != []
    ensures AggregationResultSet(ms).Err?
  {
    if a < b {
      GlobalBeforeGroupByFails(ms, a, b);
    } else if GroupByColumnNames(ms).Ok? {
      if GroupByColumnNames(ms).value != [] {
        GlobalWithColumnsFails(ms, a);
      } else {
        NonEmptyGroupFailsFrom(EmptyTable, ms, 0, b, e);
      }
    }
  }

  ghost predicate AllGlobal(ms: seq<AggregationResult>) {
    forall i :: 0 <= i < |ms| ==> ms[i].body.Global? && DeclaredColumns(ms[i]) == []
  }

  function GlobalValues(ms: seq<AggregationResult>): (r: Row)
    requires forall i :: 0 <= i < |ms| ==> ms[i].body.Global?
    ensures |r| == |ms| && forall i :: 0 <= i < |ms| ==> r[i] == ms[i].body.value
  {
    seq(|ms|, i requires 0 <= i < |ms| => ms[i].body.value)
  }

  /** The single row after metrics ms[..i] have been written. */
  function GlobalRow(ms: seq<AggregationResult>, i: nat): (r: Row)
    requires forall j :: 0 <= j < |ms| ==> ms[j].body.Global?
    ensures |r| == |ms|
  {
    seq(|ms|, j requires 0 <= j < |ms| => if j < i then ms[j].body.value else Null)
  }

  lemma {:induction false} AddGlobalsFrom(ms: seq<AggregationResult>, i: nat)
    requires AllGlobal(ms) && 0 < i <= |ms|
    ensures SlotsFit(Table([[]], map[[] := GlobalRow(ms, i)]), |ms|)
    ensures AddMetrics(Table([[]], map[[] := GlobalRow(ms, i)]), [], ms, i)
            == Ok(Table([[]], map[[] := GlobalRow(ms, |ms|)]))
    decreases |ms| - i
  {
    if i < |ms| {
      var t := Table([[]], map[[] := GlobalRow(ms, i)]);
      assert ms[i].body.Global?;
      assert WithGlobalKey(t, |ms|) == t;
      assert GlobalRow(ms, i)[i := ms[i].body.value] == GlobalRow(ms, i + 1);
      var g: Row := [];
      assert map[g := GlobalRow(ms, i)][g := GlobalRow(ms, i + 1)] == map[g := GlobalRow(ms, i + 1)];
      assert Put(t, |ms|, [], i, ms[i].body.value) == Table([[]], map[[] := GlobalRow(ms, i + 1)]);
      AddGlobalsFrom(ms, i + 1);
    }
  }

  /** Replaying only global aggregations builds one row, under the empty key,
      holding every metric's value. */
  lemma AllGlobalTable(ms: seq<AggregationResult>)
    requires |ms| > 0 && AllGlobal(ms)
    ensures AddMetrics(EmptyTable, [], ms, 0) == Ok(Table([[]], map[[] := GlobalRow(ms, |ms|)]))
  {
    assert ms[0].body.Global?;
    var t0 := Table([[]], map[[] := Nulls(|ms|)]);
    assert WithGlobalKey(EmptyTable, |ms|) == t0;
    assert Nulls(|ms|)[0 := ms[0].body.value] == GlobalRow(ms, 1);
    var g: Row := [];
    assert map[g := Nulls(|ms|)][g := GlobalRow(ms, 1)] == map[g := GlobalRow(ms, 1)];
    assert Put(t0, |ms|, [], 0, ms[0].body.value) == Table([[]], map[[] := GlobalRow(ms, 1)]);
    assert AddMetric(EmptyTable, [], ms, 0) == Ok(Table([[]], map[[] := GlobalRow(ms, 1)]));
    AddGlobalsFrom(ms, 1);
  }

  /** A response made only of global aggregations (no group-by columns
      declared) is one row holding each metric's value, under the metric
      names. */
  lemma AllGlobalSingleRow(ms: seq<AggregationResult>)
    requires |ms| > 0 && AllGlobal(ms)
    ensures AggregationResultSet(ms) == Ok(ResultSet(MetricNames(ms), [GlobalValues(ms)]))
  {
    GroupByColumnNamesSpec(ms);
    assert GroupByColumnNames(ms) == Ok([]);
    AllGlobalTable(ms);
    assert GlobalRow(ms, |ms|) == GlobalValues(ms);
    var g: Row := [];
    var names := MetricNames(ms);
    var t := Table([g], map[g := GlobalValues(ms)]);
    assert RowsOf(t, 0) == Ok(TableRows(t));
    assert TableRows(t) == [g + GlobalValues(ms)];
    assert g + GlobalValues(ms) == GlobalValues(ms);
    assert [] + names == names;
  }
}
