# pypinot cursor and helpers, modelled in Dafny

pypinot is a Python DB-API driver for Apache Pinot. The cursor posts a query
to the broker. It turns the JSON reply into column names and rows, and
buffers the rows for `fetchone`, `fetchmany`, `fetchall` and iteration.
This project models that core and proves properties of it:

- **The response checks**, in the code's order: server counts, HTTP status,
  then the `exceptions` list.
- **The two payload shapes.**
  - Group-by / global aggregation: an insertion-ordered table from group key
    to per-metric slots. It includes the repair of over-long group value
    lists, and the TypeError Python raises when a repaired key holds a list
    or an object and so cannot be hashed as a dictionary key.
  - Selection: columns and results taken as they are.
  - Dispatch: `aggregationResults` is used when present, even beside
    `selectionResults`; a payload with neither gives no columns and no rows.
- **The helpers**:
  - group-by column agreement;
  - value type tagging;
  - first-non-null column type inference, which stops early;
  - DB-API description tuples;
  - SQL literal escaping;
  - the closed and result guards.
- **The cursor's state machine**: `closed`, `description`, the result buffer,
  `array_size` and `rowcount`.

The HTTP round trip is an input. `Execute` receives a `Reply`: the status
code, and either the decoded payload or the fact that the body was not JSON.

Modules, one per file:

| file | module | what it holds |
|---|---|---|
| protocol.dfy | `Protocol` | JSON values, payload shapes, error kinds, `Option`/`Result` |
| helper.dfy | `Helper` | guards, `Escape`, group-by column agreement, `GetType`, descriptions |
| type_inference.dfy | `TypeInference` | `get_types_from_rows`: spec function, the looping method, and lemmas |
| translation.dfy | `Translation` | response checks, group repair, aggregation table, selection |
| aggregation_facts.dfy | `AggregationFacts` | what the aggregation rows are, stated independently of the loops |
| headers.dfy | `Headers` | `extra_request_headers` parsing and Python `str.split` |
| cursor.dfy | `Cursors` | the `Cursor` class and its constructor wrapper `Open` |

How the loops are modelled:

- Each loop of the driver is a `method` with loop invariants. Its `ensures`
  ties the result to a specification function, or to the old state.
  - The type-inference loop: `GetTypesFromRows` equals `InferTypes`, which is built on the tail-recursive row and value scans `ScanRows` and `ScanValues`.
  - The group-by column loop: `GetGroupByColumnNames` equals `GroupByColumnNames`, which is built on the tail-recursive `AgreedColumns`.
  - The aggregation loops: `TranslateAggregation` equals `AggregationResultSet`, and `WriteEntries` equals `AddEntries` (tail-recursive).
  - The read-out loop: `ReadRows` equals `RowsOf`, a sequence comprehension over the table's keys.
  - The header loop: `ParseExtraHeaders` equals `ExtraHeaders` (tail-recursive).
  - The `fetchall` loop over `__next__`: `FetchAll` returns exactly the old buffer and leaves it empty.
- The properties are then proved as lemmas about those functions.
- The aggregation table is also characterised without reference to the
  loops. Its rows are the distinct repaired keys in first-seen order. Each
  cell holds the last value written for that metric and key, or null.
- The cursor is a class whose methods modify only the fields they update.

Where the code differs from what the driver claims to do, the model follows
the code:

- **Booleans are typed NUMBER.** Python's `bool` is a subclass of `int`, and
  `get_type` tests for numbers first, so BOOLEAN is never produced. For the
  same reason `escape` returns a boolean unchanged.
- **A type-inference failure still changes the cursor.** `execute` has
  already reset `description` to None and the buffer to `[]` at that point
  (pypinot/cursor.py:197-206), and the model keeps that partial update.
- **A second `close` raises**, because `close` is guarded by `check_closed`.
- **A type conflict raises NameError, not DatabaseError.** The message
  names an undefined variable (pypinot/helper.py:154), so building the
  message fails first.
- **Mixing global and group-by metrics is not always rejected.**
  - A global metric followed by a group-by metric is always rejected.
  - A group-by metric followed by a global one is accepted when no group-by
    columns are declared and all of its entries have empty groups. Those
    entries share the global row's empty key.
  - `GlobalAndGroupByFail` proves rejection in either order once some
    entry has a non-empty group.
- **Over-long group values with no group-by columns fail.** The repair step
  then indexes an empty list: IndexError, or TypeError if a joined value is
  not a string.

## Model

| member | source | states |
|---|---|---|
| Helper.CheckClosed | pypinot/helper.py:31-38 | fails exactly when the cursor is closed, with the bare Exception |
| Helper.CheckResult | pypinot/helper.py:41-48 | fails exactly when there is no result buffer (never executed), with Error |
| Helper.Escape | pypinot/helper.py:51-61 | `'*'`, ints, floats and booleans come back unchanged; a string becomes a string; null and objects give None; a list of strings becomes one string; a list with an element that is not a string or list raises TypeError, the only error possible |
| Helper.UndoubleDouble | pypinot/helper.py:55 | doubling every single quote is undone by reading pairs back, so the quoting loses nothing |
| Helper.EscapeStringRoundTrip | pypinot/helper.py:51-55 | a string other than `*` is escaped to a quoted literal whose unquoting gives the string back |
| Helper.GetGroupByColumnNames | pypinot/helper.py:71-80 | the accumulator loop computes exactly the agreed group-by column list or error |
| Helper.GroupByColumnNamesSpec | pypinot/helper.py:71-80 | all lists empty gives `[]`; otherwise the result is the first non-empty list, and it is accepted iff every later metric declares exactly that list; the only error is DatabaseError |
| Helper.GroupByColumnNamesAt | pypinot/helper.py:76-79 | with metric k the first non-empty declaration: success iff all later declarations equal it, and the value is that list |
| Helper.GetType | pypinot/helper.py:83-92 | strings are STRING; ints, floats and booleans are NUMBER; BOOLEAN is never returned; anything else raises Error |
| Helper.DescriptionFromTypes | pypinot/helper.py:161-173 | one 7-tuple per zipped pair, `min` of the two lengths, name and type in order, the five other fields null |
| TypeInference.Unresolved | pypinot/helper.py:138 | the `remaining` counter: zero exactly when every column has a type, all columns when none has |
| TypeInference.InferTypes | pypinot/helper.py:133-158 | no columns give `[]` whatever the rows; columns without rows raise InternalError; a result has one type per column |
| TypeInference.GetTypesFromRows | pypinot/helper.py:128-158 | the nested loops with the `remaining` counter and early break compute exactly `InferTypes` |
| TypeInference.ScanValuesSpec | pypinot/helper.py:145-155 | scanning one row keeps each slot equal to the type of the first non-null value seen so far |
| TypeInference.ScanRowsSpec | pypinot/helper.py:140-155 | scanning rows keeps the same agreement across rows |
| TypeInference.ScanValuesChecks | pypinot/helper.py:145-155 | scanning a row succeeds exactly when each of its non-null values has a type that agrees with its column's type when that is already fixed |
| TypeInference.ScanRowsFails | pypinot/helper.py:143-155 | a failing scan has met a bad row: one of the wrong width, or with a value that has no type or whose type differs from an earlier value of its column |
| TypeInference.ScanRowsWellFormed | pypinot/helper.py:140-155 | on well-formed rows the scan never fails |
| TypeInference.InferTypesFirstNonNull | pypinot/helper.py:137-158 | on success there is one type per column and type `j` is the type of the first non-null value of column `j` in row order |
| TypeInference.InferTypesNullColumn | pypinot/helper.py:156-157 | a column null in every row makes inference fail, with DatabaseError when the rows are well formed |
| TypeInference.InferTypesSucceeds | pypinot/helper.py:140-158 | well-formed rows with a non-null value in every column always give types |
| TypeInference.InferTypesChecksScanned | pypinot/helper.py:140-155 | success implies that every scanned row (up to the first prefix giving every column a value) has one value per column, and every non-null value in those rows has its column's inferred type; so a wrong-width row, an untypable value or a type conflict there makes inference fail |
| TypeInference.InferTypesFailsForAReason | pypinot/helper.py:133-157 | inference fails only when there are columns and either no rows, a bad row, or a column with no non-null value |
| TypeInference.InferTypesStopsWhenResolved | pypinot/helper.py:141-142 | once the scanned rows resolve every column, appending any rows (even malformed ones) changes nothing |
| Translation.CheckResponse | pypinot/cursor.py:99-119 | passes iff the body is JSON, both counts are present and not -1 with queried ≤ responded, the status is 200 and `exceptions` is empty; each failure gives its error in that order |
| Translation.Respond | pypinot/cursor.py:99-192 | a result set comes only from a reply that passed all three checks |
| Translation.Concat | pypinot/cursor.py:150 | `"".join` succeeds exactly on lists of strings |
| Translation.RepairSpec | pypinot/cursor.py:141-152 | fewer values than columns is exactly the DatabaseError case; a repaired list has exactly the column count, its first value is the concatenation of the leading extra+1 strings and the rest are the trailing values unchanged; with no columns an over-long list fails; with columns, an over-long list with a non-string among the leading extra+1 values raises TypeError |
| Translation.AddEntriesUnhashable | pypinot/cursor.py:139-155 | writing a metric's entries raises TypeError on reaching the first entry whose repaired key holds a list or object, whatever the table holds |
| Translation.UnhashableKeyFails | pypinot/cursor.py:133-155 | a group-by metric with such an entry makes the whole metric loop raise TypeError, and the aggregation branch too when it is the first metric |
| Translation.Put | pypinot/cursor.py:155-157 | writing one slot keeps every slot array one entry per metric, keeps every key, and the key is present afterwards |
| Translation.AddEntries | pypinot/cursor.py:139-157 | writing a metric's entries keeps the table well shaped and never drops a key |
| Translation.AddMetric | pypinot/cursor.py:133-169 | writing one metric, group-by or global, keeps the table well shaped and never drops a key |
| Translation.AddMetrics | pypinot/cursor.py:133-169 | writing all metrics in order keeps the table well shaped and never drops a key |
| Translation.WithGlobalKey | pypinot/cursor.py:159-160 | the empty key is present afterwards and nothing else is lost |
| Translation.MetricNames | pypinot/cursor.py:127-129 | one name per metric, the `function` field, in declaration order |
| Translation.TranslateAggregation | pypinot/cursor.py:124-182 | the aggregation loops compute exactly `AggregationResultSet` |
| Translation.WriteEntries | pypinot/cursor.py:139-157 | the inner loop over `groupByResult` computes exactly `AddEntries` |
| Translation.ReadRows | pypinot/cursor.py:171-182 | the read-out loop computes exactly the table's rows or the width error |
| Translation.SelectionResultSet | pypinot/cursor.py:183-192 | succeeds iff `columns` and `results` are both present and non-empty, giving them verbatim; otherwise DatabaseError |
| Translation.PayloadResultSet | pypinot/cursor.py:121-192 | `aggregationResults` wins over `selectionResults`; a payload with neither gives empty columns and rows, not an error |
| AggregationFacts.ReplayMeaning | pypinot/cursor.py:154-157 | writes replayed into the ordered table give the keys in first-seen order and, per cell, the last value written (null if none) |
| AggregationFacts.AggregationRowsMeaning | pypinot/cursor.py:124-182 | columns are the group-by columns then the metric names; one row per distinct repaired key in first-seen order, each of width group-by columns plus metrics, equal to the key followed by each metric's last value for that key or null |
| AggregationFacts.AggregationReadOutSucceeds | pypinot/cursor.py:173-181 | the per-row width checks never fire: translation fails only in column agreement or while writing metrics |
| AggregationFacts.GlobalBeforeGroupByFails | pypinot/cursor.py:134-138 | a global metric followed by a group-by metric is rejected |
| AggregationFacts.GlobalWithColumnsFails | pypinot/cursor.py:165-168 | a global metric alongside non-empty group-by columns is rejected |
| AggregationFacts.GlobalAndGroupByFail | pypinot/cursor.py:133-169 | a global metric and a group-by entry with a non-empty group are rejected together in either order |
| AggregationFacts.AllGlobalSingleRow | pypinot/cursor.py:158-182 | an all-global payload gives the metric names as columns and exactly one row of the metric values |
| Headers.Split | pypinot/cursor.py:62-63 | Python's `str.split` on one character: at least one piece, none containing the separator |
| Headers.JoinSplit | pypinot/cursor.py:62-63 | joining the pieces of a split gives the string back |
| Headers.SplitJoin | pypinot/cursor.py:62-63 | splitting a join of separator-free parts gives the parts back |
| Headers.ParseExtraHeaders | pypinot/cursor.py:60-65 | the parsing loop computes exactly `ExtraHeaders` |
| Headers.ExtraHeadersRoundTrip | pypinot/cursor.py:60-65 | rendering pairs free of `,` and `=` as `k1=v1,k2=v2` and parsing gives the map of the pairs, a repeated key keeping its last value |
| Headers.ExtraHeadersFails | pypinot/cursor.py:61-64 | parsing fails iff some comma piece does not split on `=` into exactly two, and then with ValueError |
| Cursors.OutcomeSpec | pypinot/cursor.py:197-206 | with rows and successful inference the buffer is the rows and the description names every column in order with the type of its first non-null value; a failure leaves an empty buffer and no description; no rows give an empty buffer and no description |
| Cursors.SelectionOutcome | pypinot/cursor.py:183-206 | a checked selection reply is translated iff columns and results are non-empty; then the buffer is `results` verbatim and the description names `columns` in order, each typed by its first non-null result |
| Cursors.EffectiveSize | pypinot/cursor.py:234 | `size or self.array_size`: a non-zero size is used as given; a missing or zero size falls back to `array_size` |
| Cursors.SliceStop | pypinot/cursor.py:235 | the Python slice stop of `[:n]`: `min(n, len)` for non-negative n, and a negative n drops the last `-n` rows |
| Cursors.Cursor.constructor | pypinot/cursor.py:51-65 | a new cursor is open, has no buffer, no description, `array_size` 1 and `rowcount` -1 |
| Cursors.Open | pypinot/cursor.py:37-65 | construction fails exactly when the header string is malformed; otherwise a fresh cursor in the initial state holding the parsed headers |
| Cursors.Cursor.Close | pypinot/cursor.py:67-70 | closes the cursor; closing a closed cursor raises |
| Cursors.Cursor.Execute | pypinot/cursor.py:72-208 | closed or failing the checks or translation: nothing changes; otherwise description and buffer become the outcome of the translated result set |
| Cursors.Cursor.ExecuteMany | pypinot/cursor.py:210-212 | always raises: the closed Exception when closed, else NotSupportedError |
| Cursors.Cursor.FetchOne | pypinot/cursor.py:214-224 | the result check precedes the closed check; an empty buffer gives None; otherwise the front row is removed and returned, the rest kept in order |
| Cursors.Cursor.FetchMany | pypinot/cursor.py:226-236 | guards in the same order; `size or array_size` rows by Python slicing are returned and exactly the rest stays buffered |
| Cursors.Cursor.FetchAll | pypinot/cursor.py:238-246 | guards in the same order; by repeated `Next` returns every buffered row in order and leaves the buffer empty |
| Cursors.Cursor.Iter | pypinot/cursor.py:258-260 | raises exactly when closed |
| Cursors.Cursor.Next | pypinot/cursor.py:262-268 | closed check first, then the fetch guards; the front row, or StopIteration on an empty buffer |
| Cursors.Cursor.SetInputSizes | pypinot/cursor.py:248-251 | raises exactly when closed, otherwise does nothing |
| Cursors.Cursor.SetOutputSizes | pypinot/cursor.py:253-256 | raises exactly when closed, otherwise does nothing |

## Left out

- The HTTP POST, JSON decoding, response encoding defaulting and URL construction (`urlunparse`). The reply is an input to `Execute`. The constructor's host, port, scheme, path and debug arguments only feed these and logging.
- Logging, `pformat` dumps and the text of error messages. Errors are tags of the error kind.
- `apply_parameters` (Python `%` formatting of the query). The query text is not modelled.
- The exception class hierarchy. DatabaseError, ProgrammingError, InternalError, NotSupportedError, Error, the bare Exception and the Python built-ins raised are distinct tags.
- Missing mandatory JSON keys (KeyError) and JSON values of the wrong kind where the code expects a list or object. The payload is typed: each metric has either a `groupByResult` list or a `value`, and a row is a list.
- Python's cross-type equality and hashing (`1 == 1.0 == True`) in group keys and column lists. The model uses structural equality.
- Float values are carried as their JSON literal text, so two spellings of one float (`1.0`, `1.00`, `1e0`) are different values. Python decodes them to one float. The model therefore treats them as different in group keys (pypinot/cursor.py:154-156), where Python would merge the two entries into one row. It also treats group-by column lists that differ only in such spellings as unequal (pypinot/helper.py:76).
- Aliasing between the buffer and the decoded payload's list. The buffer is a value, and no one else observes the list.
- `Cursors.Cursor.FetchMany`: `size` is an optional integer. Other falsy or non-integer arguments are not modelled.
- `Cursors.Cursor.FetchAll`: `list(self)` also calls `__iter__`. That check repeats the closed check already made, so it is not repeated.
- `Cursors.Open` stands in for the raising constructor, because a Dafny constructor cannot fail. `Cursors.Cursor.constructor` takes the parsed headers.
- The first definition of `get_types_from_rows` (pypinot/helper.py:95-125). It is identical to the second and shadowed by it.
- setup.py holds packaging only.
- A row that is JSON null, or a `None` element among the buffered rows, is not representable: a row is a list of values. Without it, `fetchone`'s `None` means only "buffer empty".
- `rowcount` is never updated by the driver. The model keeps it at -1 the same way.
