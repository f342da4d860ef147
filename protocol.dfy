/** Values exchanged with the broker's HTTP JSON API, the shapes of a query
    response, and the exceptions the driver raises. */
module Protocol {

  datatype Option<+T> = None | Some(value: T) {
    function GetOr(default: T): T {
      match this
      case Some(v) => v
      case None => default
    }
  }

  /** The exception classes the driver raises, tagged by kind. The first five
      are the DB-API classes; the rest are Python built-ins that escape from
      the code (check_closed raises a bare Exception, and __next__ raises
      StopIteration at the end of the rows). */
  datatype ErrorKind =
    | DatabaseError
    | ProgrammingError
    | InternalError
    | NotSupportedError
    | Error
    | PlainException
    | TypeError
    | IndexError
    | NameError
    | ValueError
    | StopIteration

  datatype Result<+T> = Ok(value: T) | Err(error: ErrorKind) {
    predicate IsFailure() { Err? }
    function PropagateFailure<U>(): Result<U>
      requires Err?
    {
      Err(error)
    }
    function Extract(): T
      requires Ok?
    {
      value
    }
  }

  /** A decoded JSON value. Python's None and JSON null are both Null; a
      float is carried as its literal text, so equality of floats is equality
      of their spellings. */
  datatype Value =
    | Null
    | Str(s: string)
    | Int(i: int)
    | Flt(literal: string)
    | Bool(b: bool)
    | Arr(items: seq<Value>)
    | Obj(fields: map<string, Value>)

  type Row = seq<Value>

  /** One element of a metric's `groupByResult` list. */
  datatype GroupByEntry = GroupByEntry(group: seq<Value>, value: Value)

  /** A metric either carries a `groupByResult` list or, for a global
      aggregation, a single `value`. */
  datatype AggregationBody = GroupBy(entries: seq<GroupByEntry>) | Global(value: Value)

  /** One element of `aggregationResults`: the metric's `function` name, its
      optional `groupByColumns`, and its body. */
  datatype AggregationResult =
    AggregationResult(functionName: Value, groupByColumns: Option<seq<Value>>, body: AggregationBody)

  /** The `selectionResults` object; each key may be absent. */
  datatype SelectionResults = SelectionResults(columns: Option<seq<Value>>, results: Option<seq<Row>>)

  /** The top-level response object. An absent or null `exceptions` key is the
      empty list. */
  datatype Payload = Payload(
    numServersResponded: Option<int>,
    numServersQueried: Option<int>,
    exceptions: seq<Value>,
    aggregationResults: Option<seq<AggregationResult>>,
    selectionResults: Option<SelectionResults>)

  /** What one POST round trip yields: the HTTP status and the body, or None
      when the body is not valid JSON. */
  datatype Reply = Reply(status: int, body: Option<Payload>)
}
