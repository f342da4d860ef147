/** The translation of a decoded query response into column names and rows,
    as `Cursor.execute` does it in pypinot/cursor.py: the response checks,
    the group-by / global aggregation shape and the selection shape. */
module Translation {
  import opened Protocol
  import opened Helper

  /** Column names and rows of one result set. */
  datatype ResultSet = ResultSet(columns: seq<Value>, rows: seq<Row>)

  // ---------------------------------------------------------------------------
  // Response checks

  /** The server counts, each read with -1 for an absent key, show that every
      queried server responded. */
  predicate ServerCountsOk(p: Payload) {
    var responded := p.numServersResponded.GetOr(-1);
    var queried := p.numServersQueried.GetOr(-1);
    !(queried > responded || responded == -1 || queried == -1)
  }

  /** The checks run on a reply before any translation, in the order execute runs them:
      a body that is not JSON, then the server counts, then the HTTP status,
      then the `exceptions` list. */
  function CheckResponse(reply: Reply): (r: Result<Payload>)
    ensures r.Ok? <==> reply.body.Some? && ServerCountsOk(reply.body.value)
                       && reply.status == 200 && reply.body.value.exceptions == []
    ensures r.Ok? ==> r.value == reply.body.value
    ensures reply.body.None? ==> r == Err(DatabaseError)
    ensures reply.body.Some? && !ServerCountsOk(reply.body.value) ==> r == Err(DatabaseError)
    ensures reply.body.Some? && ServerCountsOk(reply.body.value) && reply.status != 200 ==> r == Err(ProgrammingError)
    ensures (reply.body.Some? && ServerCountsOk(reply.body.value) && reply.status == 200
             && reply.body.value.exceptions != [])
            ==> r == Err(DatabaseError)
  {
    match reply.body
    case None => Err(DatabaseError)
    case Some(p) =>
      if !ServerCountsOk(p) then Err(DatabaseError)
      else if reply.status != 200 then Err(ProgrammingError)
      else if p.exceptions != [] then Err(DatabaseError)
      else Ok(p)
  }

  // ---------------------------------------------------------------------------
  // Repair of over-long group value lists

  /** "".join(vs): the concatenation, or None when some element is not a string. */
  function Concat(vs: seq<Value>): (r: Option<string>)
    ensures r.Some? <==> forall i :: 0 <= i < |vs| ==> vs[i].Str?
  {
    if vs == [] then Some([])
    else if !vs[0].Str? then None
    else match Concat(vs[1..])
      case None => None
      case Some(rest) => Some(vs[0].s + rest)
  }

  lemma {:induction false} ConcatSnoc(vs: seq<Value>, x: Value)
    requires Concat(vs).Some? && x.Str?
    ensures Concat(vs + [x]) == Some(Concat(vs).value + x.s)
  {
    if vs == [] {
      assert vs + [x] == [x] && [x][1..] == [];
      assert Concat([x]) == Some(x.s + []);
      assert x.s + [] == [] + x.s;
    } else {
      assert (vs + [x])[0] == vs[0] && (vs + [x])[1..] == vs[1..] + [x];
      ConcatSnoc(vs[1..], x);
      assert vs[0].s + (Concat(vs[1..]).value + x.s) == (vs[0].s + Concat(vs[1..]).value) + x.s;
    }
  }

  /** The group values of one group-by entry fitted to `n` group-by columns.
      Fewer values are a DatabaseError. More values come from poor escaping
      upstream: the `extra` leading values are joined onto the value that
      becomes first. That join is a TypeError on non-strings, and with no
      group-by columns there is no first value (IndexError). */
  function Repair(group: seq<Value>, n: nat): Result<seq<Value>> {
    if |group| < n then Err(DatabaseError)
    else if |group| == n then Ok(group)
    else
      var extra := |group| - n;
      match Concat(group[..extra])
      case None => Err(TypeError)
      case Some(prefix) =>
        if n == 0 then Err(IndexError)
        else if !group[extra].Str? then Err(TypeError)
        else Ok([Str(prefix + group[extra].s)] + group[extra + 1..])
  }

  /** A repaired list has exactly `n` values: the first is the concatenation
      of the leading |group| - n + 1 strings, the rest are the trailing values
      unchanged. DatabaseError is raised exactly for too few values. */
  lemma RepairSpec(group: seq<Value>, n: nat)
    ensures Repair(group, n) == Err(DatabaseError) <==> |group| < n
    ensures Repair(group, n).Ok? ==> |Repair(group, n).value| == n
    ensures |group| == n ==> Repair(group, n) == Ok(group)
    ensures n == 0 < |group| ==> Repair(group, n).Err?
    ensures 0 < n < |group| && (forall i :: 0 <= i <= |group| - n ==> group[i].Str?) ==>
      var extra := |group| - n;
      && Repair(group, n).Ok?
      && Repair(group, n).value[0].Str?
      && Concat(group[..extra + 1]) == Some(Repair(group, n).value[0].s)
      && Repair(group, n).value[1..] == group[extra + 1..]
    ensures 0 < n < |group| && (exists i :: 0 <= i <= |group| - n && !group[i].Str?) ==>
      Repair(group, n) == Err(TypeError)
  {
    var extra := |group| - n;
    if 0 < n < |group| && (forall i :: 0 <= i <= extra ==> group[i].Str?) {
      assert group[..extra + 1] == group[..extra] + [group[extra]];
      ConcatSnoc(group[..extra], group[extra]);
    } else if 0 < n < |group| {
      var i :| 0 <= i <= extra && !group[i].Str?;
      if i < extra {
        assert group[..extra][i] == group[i];
      }
    }
  }

  /** Python hashes a group key tuple: a list or object inside it is unhashable. */
  predicate Hashable(v: Value) { !v.Arr? && !v.Obj? }

  predicate HashableKey(key: Row) { forall v :: v in key ==> Hashable(v) }

  // ---------------------------------------------------------------------------
  // The ordered table from group key to per-metric values

  /** The OrderedDict `gby_rows` of execute: keys in insertion order, and a slot
      array per key with one entry per metric. */
  datatype Table = Table(keys: seq<Row>, slots: map<Row, Row>)

  const EmptyTable := Table([], map[])

  function Nulls(n: nat): (r: Row)
    ensures |r| == n && forall i :: 0 <= i < n ==> r[i] == Null
  {
    seq(n, _ => Null)
  }

  /** Every slot array has one entry per metric. */
  ghost predicate SlotsFit(t: Table, nm: nat) {
    forall k :: k in t.slots ==> |t.slots[k]| == nm
  }

  /** Every key in the insertion order has a slot array. */
  ghost predicate KeysListed(t: Table) {
    forall k :: k in t.keys ==> k in t.slots
  }

  /** Slot `i` of `key` becomes `v`; a new key is appended with all slots null. */
  function Put(t: Table, nm: nat, key: Row, i: nat, v: Value): (r: Table)
    requires SlotsFit(t, nm) && i < nm
    ensures SlotsFit(r, nm) && (KeysListed(t) ==> KeysListed(r))
    ensures t.slots.Keys <= r.slots.Keys && key in r.slots
  {
    if key in t.slots then Table(t.keys, t.slots[key := t.slots[key][i := v]])
    else Table(t.keys + [key], t.slots[key := Nulls(nm)[i := v]])
  }

  /** The entries es[k..] of metric `i`'s groupByResult written into the table. */
  function AddEntries(t: Table, gby: seq<Value>, nm: nat, i: nat, es: seq<GroupByEntry>, k: nat): (r: Result<Table>)
    requires SlotsFit(t, nm) && i < nm && k <= |es|
    ensures r.Ok? ==> SlotsFit(r.value, nm) && (KeysListed(t) ==> KeysListed(r.value))
    ensures r.Ok? ==> t.slots.Keys <= r.value.slots.Keys
    decreases |es| - k
  {
    if k == |es| then Ok(t)
    else match Repair(es[k].group, |gby|)
      case Err(e) => Err(e)
      case Ok(key) =>
        if !HashableKey(key) then Err(TypeError)
        else AddEntries(Put(t, nm, key, i, es[k].value), gby, nm, i, es, k + 1)
  }

  /** Entry `m` is the first of `es` whose repaired key is unhashable: every
      earlier entry repairs to a hashable key, and entry `m` repairs to a key
      holding a list or an object. */
  ghost predicate FirstUnhashable(es: seq<GroupByEntry>, n: nat, m: nat) {
    && m < |es|
    && (forall q :: 0 <= q < m ==> Repair(es[q].group, n).Ok? && HashableKey(Repair(es[q].group, n).value))
    && Repair(es[m].group, n).Ok? && !HashableKey(Repair(es[m].group, n).value)
  }

  /** Writing entries from `k` on raises TypeError when it reaches the first
      unhashable key, whatever the table holds. */
  lemma {:induction false} AddEntriesUnhashable(t: Table, gby: seq<Value>, nm: nat, i: nat, es: seq<GroupByEntry>, k: nat, m: nat)
    requires SlotsFit(t, nm) && i < nm && k <= m
    requires FirstUnhashable(es, |gby|, m)
    ensures AddEntries(t, gby, nm, i, es, k) == Err(TypeError)
    decreases m - k
  {
    if k < m {
      var key := Repair(es[k].group, |gby|).value;
      AddEntriesUnhashable(Put(t, nm, key, i, es[k].value), gby, nm, i, es, k + 1, m);
    }
  }

  /** The table with the empty (global) key present, appended with all slots
      null if it was missing. */
  function WithGlobalKey(t: Table, nm: nat): (r: Table)
    requires SlotsFit(t, nm)
    ensures SlotsFit(r, nm) && (KeysListed(t) ==> KeysListed(r))
    ensures [] in r.slots && t.slots.Keys <= r.slots.Keys
  {
    if [] in t.slots then t else Table(t.keys + [[]], t.slots[[] := Nulls(nm)])
  }

  /** Metric `i` written into the table. A group-by metric is refused once the
      empty (global) key exists. A global metric inserts the empty key, and
      is refused unless that is then the only key and there are no group-by
      columns. */
  function AddMetric(t: Table, gby: seq<Value>, ms: seq<AggregationResult>, i: nat): (r: Result<Table>)
    requires SlotsFit(t, |ms|) && i < |ms|
    ensures r.Ok? ==> SlotsFit(r.value, |ms|) && (KeysListed(t) ==> KeysListed(r.value))
    ensures r.Ok? ==> t.slots.Keys <= r.value.slots.Keys
  {
    match ms[i].body
    case GroupBy(es) =>
      if [] in t.slots then Err(DatabaseError) else AddEntries(t, gby, |ms|, i, es, 0)
    case Global(v) =>
      var t' := WithGlobalKey(t, |ms|);
      if |t'.keys| != 1 then Err(DatabaseError)
      else if |gby| > 0 then Err(DatabaseError)
      else Ok(Put(t', |ms|, [], i, v))
  }

  /** Metrics ms[i..] written into the table in order. */
  function AddMetrics(t: Table, gby: seq<Value>, ms: seq<AggregationResult>, i: nat): (r: Result<Table>)
    requires SlotsFit(t, |ms|) && i <= |ms|
    ensures r.Ok? ==> SlotsFit(r.value, |ms|) && (KeysListed(t) ==> KeysListed(r.value))
    ensures r.Ok? ==> t.slots.Keys <= r.value.slots.Keys
    decreases |ms| - i
  {
    if i == |ms| then Ok(t)
    else match AddMetric(t, gby, ms, i)
      case Err(e) => Err(e)
      case Ok(t') => AddMetrics(t', gby, ms, i + 1)
  }

  /** One row per key in insertion order: the key's values then its slots. */
  function TableRows(t: Table): seq<Row>
    requires KeysListed(t)
  {
    seq(|t.keys|, r requires 0 <= r < |t.keys| => t.keys[r] + t.slots[t.keys[r]])
  }

  /** The rows of the table, refused when a key's width differs from the
      number of group-by columns. */
  function RowsOf(t: Table, n: nat): Result<seq<Row>>
    requires KeysListed(t)
  {
    if forall r :: 0 <= r < |t.keys| ==> |t.keys[r]| == n then Ok(TableRows(t)) else Err(DatabaseError)
  }

  function MetricNames(ms: seq<AggregationResult>): (r: seq<Value>)
    ensures |r| == |ms| && forall i :: 0 <= i < |ms| ==> r[i] == ms[i].functionName
  {
    seq(|ms|, i requires 0 <= i < |ms| => ms[i].functionName)
  }

  /** The result set of an `aggregationResults` list. */
  function AggregationResultSet(ms: seq<AggregationResult>): Result<ResultSet> {
    match GroupByColumnNames(ms)
    case Err(e) => Err(e)
    case Ok(gby) =>
      match AddMetrics(EmptyTable, gby, ms, 0)
      case Err(e) => Err(e)
      case Ok(t) =>
        match RowsOf(t, |gby|)
        case Err(e) => Err(e)
        case Ok(rows) => Ok(ResultSet(gby + MetricNames(ms), rows))
  }

  /** A group-by metric reached with no global key in the table raises
      TypeError at its first unhashable group key, and so does the whole
      aggregation branch when that metric is the first. */
  lemma {:induction false} UnhashableKeyFails(t: Table, gby: seq<Value>, ms: seq<AggregationResult>, i: nat, m: nat)
    requires SlotsFit(t, |ms|) && i < |ms| && [] !in t.slots
    requires ms[i].body.GroupBy? && FirstUnhashable(ms[i].body.entries, |gby|, m)
    ensures AddMetrics(t, gby, ms, i) == Err(TypeError)
    ensures i == 0 && t == EmptyTable && GroupByColumnNames(ms) == Ok(gby) ==>
      AggregationResultSet(ms) == Err(TypeError)
  {
    AddEntriesUnhashable(t, gby, |ms|, i, ms[i].body.entries, 0, m);
  }

  /** The aggregation branch of execute: the OrderedDict is built by nested
      loops with in-place slot writes, then read out into rows. */
  method TranslateAggregation(ms: seq<AggregationResult>) returns (r: Result<ResultSet>)
    ensures r == AggregationResultSet(ms)
  {
    var gbyCols :- GetGroupByColumnNames(ms);
    var nm := |ms|;
    var table := EmptyTable;
    var i := 0;
    while i < nm
      invariant i <= nm
      invariant SlotsFit(table, nm) && KeysListed(table)
      invariant AddMetrics(table, gbyCols, ms, i) == AddMetrics(EmptyTable, gbyCols, ms, 0)
    {
      match ms[i].body {
        case GroupBy(entries) =>
          if [] in table.slots {
            return Err(DatabaseError);
          }
          table :- WriteEntries(table, gbyCols, nm, i, entries);
        case Global(value) =>
          ghost var before := table;
          table := WithGlobalKey(table, nm);
          if |table.keys| != 1 {
            return Err(DatabaseError);
          }
          if |gbyCols| > 0 {
            return Err(DatabaseError);
          }
          table := Table(table.keys, table.slots[[] := table.slots[[]][i := value]]);
          assert AddMetric(before, gbyCols, ms, i) == Ok(table);
      }
      i := i + 1;
    }
    var rows :- ReadRows(table, |gbyCols|);
    return Ok(ResultSet(gbyCols + MetricNames(ms), rows));
  }

  /** The inner loop over one metric's groupByResult list. */
  method WriteEntries(t: Table, gby: seq<Value>, nm: nat, i: nat, entries: seq<GroupByEntry>) returns (r: Result<Table>)
    requires SlotsFit(t, nm) && i < nm
    ensures r == AddEntries(t, gby, nm, i, entries, 0)
  {
    var keys := t.keys;
    var slots := t.slots;
    var k := 0;
    while k < |entries|
      invariant k <= |entries|
      invariant SlotsFit(Table(keys, slots), nm)
      invariant AddEntries(Table(keys, slots), gby, nm, i, entries, k) == AddEntries(t, gby, nm, i, entries, 0)
    {
      var key :- Repair(entries[k].group, |gby|);
      if !HashableKey(key) {
        return Err(TypeError);
      }
      ghost var put := Put(Table(keys, slots), nm, key, i, entries[k].value);
      if key !in slots {
        keys := keys + [key];
        slots := slots[key := Nulls(nm)];
      }
      slots := slots[key := slots[key][i := entries[k].value]];
      assert Table(keys, slots) == put;
      k := k + 1;
    }
    return Ok(Table(keys, slots));
  }

  /** The read-out loop: one row per key, refused on a key of the wrong width.
      Every slot array already has one entry per metric (SlotsFit), so the
      second width check of execute cannot fail and is not repeated here. */
  method ReadRows(t: Table, n: nat) returns (r: Result<seq<Row>>)
    requires KeysListed(t)
    ensures r == RowsOf(t, n)
  {
    var rows: seq<Row> := [];
    var q := 0;
    while q < |t.keys|
      invariant q <= |t.keys|
      invariant forall p :: 0 <= p < q ==> |t.keys[p]| == n
      invariant rows == TableRows(t)[..q]
    {
      if |t.keys[q]| != n {
        return Err(DatabaseError);
      }
      rows := rows + [t.keys[q] + t.slots[t.keys[q]]];
      q := q + 1;
    }
    assert rows == TableRows(t);
    return Ok(rows);
  }

  // ---------------------------------------------------------------------------
  // Selection and dispatch

  /** The result set of a `selectionResults` object: its columns and results
      verbatim when both are present and non-empty, else DatabaseError. */
  function SelectionResultSet(sel: SelectionResults): (r: Result<ResultSet>)
    ensures r.Ok? <==> sel.columns.Some? && sel.columns.value != [] && sel.results.Some? && sel.results.value != []
    ensures r.Ok? ==> r.value.columns == sel.columns.value && r.value.rows == sel.results.value
    ensures r.Err? ==> r.error == DatabaseError
  {
    match (sel.columns, sel.results)
    case (Some(cols), Some(rows)) =>
      if cols != [] && rows != [] then Ok(ResultSet(cols, rows)) else Err(DatabaseError)
    case _ => Err(DatabaseError)
  }

  /** The aggregation shape wins over the selection shape; a payload with
      neither has no columns and no rows. */
  function PayloadResultSet(p: Payload): (r: Result<ResultSet>)
    ensures p.aggregationResults.Some? ==> r == AggregationResultSet(p.aggregationResults.value)
    ensures p.aggregationResults.None? && p.selectionResults.Some? ==> r == SelectionResultSet(p.selectionResults.value)
    ensures p.aggregationResults.None? && p.selectionResults.None? ==> r == Ok(ResultSet([], []))
  {
    if p.aggregationResults.Some? then AggregationResultSet(p.aggregationResults.value)
    else if p.selectionResults.Some? then SelectionResultSet(p.selectionResults.value)
    else Ok(ResultSet([], []))
  }

  /** What execute makes of a reply before it touches the cursor's state: a
      result set only from a 200 reply with a JSON body, all queried servers
      responding and no exceptions. */
  function Respond(reply: Reply): (r: Result<ResultSet>)
    ensures r.Ok? ==> && reply.status == 200 && reply.body.Some?
                      && ServerCountsOk(reply.body.value) && reply.body.value.exceptions == []
  {
    match CheckResponse(reply)
    case Err(e) => Err(e)
    case Ok(p) => PayloadResultSet(p)
  }
}
