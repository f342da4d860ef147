/** The DB-API cursor of pypinot/cursor.py: it runs a query, keeps the
    translated rows in a buffer and hands them out through the fetch
    operations and the iterator protocol. */
module Cursors {
  import opened Protocol
  import opened Helper
  import opened TypeInference
  import opened Translation
  import opened Headers

  /** What execute leaves in the cursor for a translated result set: both
      attributes are reset first; with rows, the column types are inferred,
      and only if that succeeds do the rows and the description replace the
      reset values. */
  datatype ExecuteOutcome = ExecuteOutcome(
    result: Result<()>,
    description: Option<seq<ColumnDescription>>,
    results: Option<seq<Row>>)

  function Outcome(rs: ResultSet): ExecuteOutcome {
    if rs.rows == [] then ExecuteOutcome(Ok(()), None, Some([]))
    else match InferTypes(rs.columns, rs.rows)
      case Err(e) => ExecuteOutcome(Err(e), None, Some([]))
      case Ok(types) => ExecuteOutcome(Ok(()), Some(DescriptionFromTypes(rs.columns, types)), Some(rs.rows))
  }

  /** A successful execute with rows buffers exactly those rows and describes
      every column, in order, with the type of its first non-null value; a
      failed one leaves an empty buffer and no description. */
  lemma OutcomeSpec(rs: ResultSet)
    ensures Outcome(rs).results.Some?
    ensures Outcome(rs).result.Err? ==> Outcome(rs).description.None? && Outcome(rs).results == Some([])
    ensures rs.rows == [] ==> Outcome(rs) == ExecuteOutcome(Ok(()), None, Some([]))
    ensures rs.rows != [] && Outcome(rs).result.Ok? ==>
      && Outcome(rs).results == Some(rs.rows)
      && Outcome(rs).description.Some?
      && |Outcome(rs).description.value| == |rs.columns|
      && forall j :: 0 <= j < |rs.columns| ==>
           && Outcome(rs).description.value[j].name == rs.columns[j]
           && FirstTypeIs(rs.rows, j, Outcome(rs).description.value[j].typeCode)
  {
    if rs.rows != [] {
      InferTypesFirstNonNull(rs.columns, rs.rows);
    }
  }

  /** A selection reply that passes the response checks is translated exactly
      when it carries non-empty columns and results; when execute then
      succeeds it buffers the results verbatim and in order and describes each
      of `columns`, in order, with the type of its first non-null result. */
  lemma SelectionOutcome(reply: Reply)
    requires CheckResponse(reply).Ok?
    requires reply.body.value.aggregationResults.None? && reply.body.value.selectionResults.Some?
    ensures Respond(reply).Ok? && Outcome(Respond(reply).value).result.Ok? ==>
      var sel := reply.body.value.selectionResults.value;
      var o := Outcome(Respond(reply).value);
      && o.results == sel.results
      && o.description.Some?
      && |o.description.value| == |sel.columns.value|
      && forall j :: 0 <= j < |sel.columns.value| ==>
           && o.description.value[j].name == sel.columns.value[j]
           && FirstTypeIs(sel.results.value, j, o.description.value[j].typeCode)
    ensures Respond(reply).Err? <==>
      var sel := reply.body.value.selectionResults.value;
      sel.columns.None? || sel.columns.value == [] || sel.results.None? || sel.results.value == []
  {
    if Respond(reply).Ok? {
      OutcomeSpec(Respond(reply).value);
    }
  }

  /** How many rows fetchmany takes: `size or self.array_size`. */
  function EffectiveSize(size: Option<int>, arraySize: int): (r: int)
    ensures size.Some? && size.value != 0 ==> r == size.value
    ensures size.None? || size == Some(0) ==> r == arraySize
  {
    match size
    case None => arraySize
    case Some(n) => if n == 0 then arraySize else n
  }

  /** The stop index of the Python slice xs[:n] on a list of `len` elements: a
      negative n counts from the end, and both ends are clamped to the list. */
  function SliceStop(n: int, len: nat): (k: nat)
    ensures k <= len
    ensures n >= 0 ==> k == Min(n, len)
    ensures n < 0 ==> len - k == Min(-n, len)
  {
    if n >= 0 then (if n <= len then n else len)
    else if -n <= len then len + n
    else 0
  }

  class Cursor {
    /** Rows fetchmany returns when called without a size; settable. */
    var arraySize: int
    var closed: bool
    var description: Option<seq<ColumnDescription>>
    /** Never updated after construction. */
    var rowcount: int
    /** The rows not yet fetched; None before the first execute. */
    var results: Option<seq<Row>>
    const extraHeaders: map<string, string>

    constructor(headers: map<string, string>)
      ensures arraySize == 1 && !closed && description.None? && rowcount == -1 && results.None?
      ensures extraHeaders == headers
    {
      arraySize := 1;
      closed := false;
      description := None;
      rowcount := -1;
      results := None;
      extraHeaders := headers;
    }

    method Close() returns (r: Result<()>)
      modifies this`closed
      ensures old(closed) ==> r == Err(PlainException)
      ensures !old(closed) ==> r == Ok(())
      ensures closed
    {
      var open :- CheckClosed(closed);
      closed := true;
      return Ok(());
    }

    /** Sends a query and buffers its rows. The reply of the round trip is a
        parameter; a closed cursor and every failed response check leave the
        cursor as it was. */
    method Execute(reply: Reply) returns (r: Result<()>)
      modifies this`description, this`results
      ensures closed ==> r == Err(PlainException) && description == old(description) && results == old(results)
      ensures !closed && Respond(reply).Err? ==>
        r == Err(Respond(reply).error) && description == old(description) && results == old(results)
      ensures !closed && Respond(reply).Ok? ==>
        var o := Outcome(Respond(reply).value);
        r == o.result && description == o.description && results == o.results
    {
      var open :- CheckClosed(closed);
      var payload :- CheckResponse(reply);
      var rs: ResultSet;
      if payload.aggregationResults.Some? {
        rs :- TranslateAggregation(payload.aggregationResults.value);
      } else if payload.selectionResults.Some? {
        rs :- SelectionResultSet(payload.selectionResults.value);
      } else {
        rs := ResultSet([], []);
      }
      description := None;
      results := Some([]);
      if rs.rows != [] {
        var types :- GetTypesFromRows(rs.columns, rs.rows);
        results := Some(rs.rows);
        description := Some(DescriptionFromTypes(rs.columns, types));
      }
      return Ok(());
    }

    method ExecuteMany() returns (r: Result<()>)
      ensures r.Err?
      ensures r.error == PlainException <==> closed
      ensures r.error == NotSupportedError <==> !closed
    {
      var open :- CheckClosed(closed);
      return Err(NotSupportedError);
    }

    /** Pops the first buffered row, or gives None when the buffer is empty.
        The result check comes before the closed check. */
    method FetchOne() returns (r: Result<Option<Row>>)
      modifies this`results
      ensures old(results).None? ==> r == Err(Error) && results == old(results)
      ensures old(results).Some? && closed ==> r == Err(PlainException) && results == old(results)
      ensures old(results) == Some([]) && !closed ==> r == Ok(None) && results == old(results)
      ensures old(results).Some? && old(results).value != [] && !closed ==>
        && r.Ok? && r.value.Some?
        && results.Some?
        && [r.value.value] + results.value == old(results).value
    {
      var executed :- CheckResult(results);
      var open :- CheckClosed(closed);
      var buffer := results.value;
      if buffer == [] {
        return Ok(None);
      }
      results := Some(buffer[1..]);
      return Ok(Some(buffer[0]));
    }

    /** Splits the buffer at the slice stop of `size or array_size`: the
        front part is returned, the rest stays buffered. */
    method FetchMany(size: Option<int>) returns (r: Result<seq<Row>>)
      modifies this`results
      ensures old(results).None? ==> r == Err(Error) && results == old(results)
      ensures old(results).Some? && closed ==> r == Err(PlainException) && results == old(results)
      ensures old(results).Some? && !closed ==>
        var k := SliceStop(EffectiveSize(size, arraySize), |old(results).value|);
        && r == Ok(old(results).value[..k])
        && results == Some(old(results).value[k..])
    {
      var executed :- CheckResult(results);
      var open :- CheckClosed(closed);
      var n := EffectiveSize(size, arraySize);
      var buffer := results.value;
      var k := SliceStop(n, |buffer|);
      results := Some(buffer[k..]);
      return Ok(buffer[..k]);
    }

    /** Drains the buffer through the iterator protocol (list(self)). */
    method FetchAll() returns (r: Result<seq<Row>>)
      modifies this`results
      ensures old(results).None? ==> r == Err(Error) && results == old(results)
      ensures old(results).Some? && closed ==> r == Err(PlainException) && results == old(results)
      ensures old(results).Some? && !closed ==> r == Ok(old(results).value) && results == Some([])
    {
      var executed :- CheckResult(results);
      var open :- CheckClosed(closed);
      var out: seq<Row> := [];
      while true
        invariant results.Some? && out + results.value == old(results).value
        decreases |results.value|
      {
        var next := Next();
        if next == Err(StopIteration) {
          break;
        }
        out := out + [next.value];
      }
      assert out + [] == out;
      return Ok(out);
    }

    method Iter() returns (r: Result<()>)
      ensures r.Err? <==> closed
      ensures r.Err? ==> r.error == PlainException
    {
      var open :- CheckClosed(closed);
      return Ok(());
    }

    /** The next buffered row; StopIteration once the buffer is empty. */
    method Next() returns (r: Result<Row>)
      modifies this`results
      ensures closed ==> r == Err(PlainException) && results == old(results)
      ensures !closed && old(results).None? ==> r == Err(Error) && results == old(results)
      ensures !closed && old(results) == Some([]) ==> r == Err(StopIteration) && results == old(results)
      ensures !closed && old(results).Some? && old(results).value != [] ==>
        r == Ok(old(results).value[0]) && results == Some(old(results).value[1..])
    {
      var open :- CheckClosed(closed);
      var one :- FetchOne();
      if one.None? {
        return Err(StopIteration);
      }
      return Ok(one.value);
    }

    method SetInputSizes(sizes: seq<int>) returns (r: Result<()>)
      ensures r.Err? <==> closed
      ensures r.Err? ==> r.error == PlainException
    {
      r := CheckClosed(closed);
    }

    method SetOutputSizes(sizes: seq<int>) returns (r: Result<()>)
      ensures r.Err? <==> closed
      ensures r.Err? ==> r.error == PlainException
    {
      r := CheckClosed(closed);
    }
  }

  /** A cursor for a connection; the extra request headers are parsed here and
      a malformed header string fails the construction. */
  method Open(extraRequestHeaders: string) returns (r: Result<Cursor>)
    ensures r.Ok? <==> ExtraHeaders(extraRequestHeaders).Ok?
    ensures r.Err? ==> r.error == ExtraHeaders(extraRequestHeaders).error
    ensures r.Ok? ==> fresh(r.value) && r.value.extraHeaders == ExtraHeaders(extraRequestHeaders).value
    ensures r.Ok? ==> !r.value.closed && r.value.results.None? && r.value.description.None?
                      && r.value.arraySize == 1 && r.value.rowcount == -1
  {
    var headers :- ParseExtraHeaders(extraRequestHeaders);
    var c := new Cursor(headers);
    return Ok(c);
  }
}
