/** The helper functions of the driver: the cursor guards, SQL literal
    escaping, the group-by column agreement check, value type tagging and the
    DB-API column descriptions. Column type inference is in TypeInference. */
module Helper {
  import opened Protocol

  /** The type codes a column description carries. */
  datatype ColumnType = String | Number | Boolean

  /** The DB-API 7-tuple describing one result column: the name, the type code
      and five reserved fields that this driver always leaves null. */
  datatype ColumnDescription = ColumnDescription(
    name: Value,
    typeCode: ColumnType,
    displaySize: Value,
    internalSize: Value,
    precision: Value,
    scale: Value,
    nullOk: Value)

  function Min(a: nat, b: nat): nat { if a <= b then a else b }

  // ---------------------------------------------------------------------------
  // Guards

  /** The check applied before every cursor operation: a closed cursor raises
      a bare Exception, otherwise the operation proceeds. */
  function CheckClosed(closed: bool): (r: Result<()>)
    ensures r.Err? <==> closed
    ensures r.Err? ==> r.error == PlainException
  {
    if closed then Err(PlainException) else Ok(())
  }

  /** The check applied before every fetch: a cursor that never executed has
      no result buffer and raises Error. */
  function CheckResult(results: Option<seq<Row>>): (r: Result<()>)
    ensures r.Err? <==> results.None?
    ensures r.Err? ==> r.error == Error
  {
    if results.None? then Err(Error) else Ok(())
  }

  // ---------------------------------------------------------------------------
  // Escaping of query parameters

  /** Every single quote of `s` written twice. */
  function DoubleQuotes(s: string): string
    decreases |s|
  {
    if s == [] then []
    else (if s[0] == '\'' then "''" else [s[0]]) + DoubleQuotes(s[1..])
  }

  /** The inverse of DoubleQuotes: reads a literal body in which quotes come
      in pairs, and is None when a quote stands alone. */
  function UndoubleQuotes(t: string): Option<string>
    decreases |t|
  {
    if t == [] then Some([])
    else if t[0] != '\'' then
      match UndoubleQuotes(t[1..])
      case Some(r) => Some([t[0]] + r)
      case None => None
    else if |t| >= 2 && t[1] == '\'' then
      match UndoubleQuotes(t[2..])
      case Some(r) => Some("'" + r)
      case None => None
    else None
  }

  /** Reads back a single-quoted SQL string literal. */
  function Unquote(q: string): Option<string> {
    if |q| >= 2 && q[0] == '\'' && q[|q| - 1] == '\'' then UndoubleQuotes(q[1..|q| - 1]) else None
  }

  /** The strings of `parts` separated by ", ". */
  function JoinComma(parts: seq<string>): string
    decreases |parts|
  {
    if parts == [] then []
    else if |parts| == 1 then parts[0]
    else parts[0] + ", " + JoinComma(parts[1..])
  }

  /** The text a parameter value is substituted as. The wildcard '*' passes
      unquoted, a string is single-quoted with its quotes doubled, numbers pass
      unchanged. Python's bool is a subclass of int, so a boolean is caught by
      the number test and also passes unchanged: the TRUE/FALSE rendering is
      never reached. A list is the ", "-join of its escaped elements, which is a
      TypeError unless every element escapes to a string. Null and objects
      match no test and escape to Python's None. */
  function Escape(v: Value): (r: Result<Value>)
    ensures v.Int? || v.Flt? || v.Bool? || v == Str("*") ==> r == Ok(v)
    ensures v.Str? ==> r.Ok? && r.value.Str?
    ensures v.Null? || v.Obj? ==> r == Ok(Null)
    ensures v.Arr? && (forall i :: 0 <= i < |v.items| ==> v.items[i].Str?) ==> r.Ok? && r.value.Str?
    ensures v.Arr? && (exists i :: 0 <= i < |v.items| && !v.items[i].Str? && !v.items[i].Arr?) ==> r == Err(TypeError)
    ensures r.Err? ==> v.Arr? && r.error == TypeError
    decreases v
  {
    if v == Str("*") then Ok(v)
    else match v
      case Str(s) => Ok(Str("'" + DoubleQuotes(s) + "'"))
      case Int(_) => Ok(v)
      case Flt(_) => Ok(v)
      case Bool(_) => Ok(v)
      case Arr(items) =>
        if forall i :: 0 <= i < |items| ==> Escape(items[i]).Ok? && Escape(items[i]).value.Str? then
          Ok(Str(JoinComma(seq(|items|, i requires 0 <= i < |items| => Escape(items[i]).value.s))))
        else Err(TypeError)
      case _ => Ok(Null)
  }

  lemma {:induction false} UndoubleDouble(s: string)
    ensures UndoubleQuotes(DoubleQuotes(s)) == Some(s)
    decreases |s|
  {
    if s != [] {
      UndoubleDouble(s[1..]);
      var d := DoubleQuotes(s);
      if s[0] == '\'' {
        assert d == "''" + DoubleQuotes(s[1..]);
        assert d[0] == '\'' && d[1] == '\'' && d[2..] == DoubleQuotes(s[1..]);
        assert s == "'" + s[1..];
      } else {
        assert d == [s[0]] + DoubleQuotes(s[1..]);
        assert d[0] == s[0] && d[1..] == DoubleQuotes(s[1..]);
        assert s == [s[0]] + s[1..];
      }
    }
  }

  /** Escaping a string (other than the wildcard) yields a well-formed SQL
      literal that reads back as the original string. */
  lemma EscapeStringRoundTrip(s: string)
    requires s != "*"
    ensures Escape(Str(s)).Ok? && Escape(Str(s)).value.Str?
    ensures Unquote(Escape(Str(s)).value.s) == Some(s)
  {
    var q := "'" + DoubleQuotes(s) + "'";
    assert Escape(Str(s)) == Ok(Str(q));
    assert q[1..|q| - 1] == DoubleQuotes(s);
    UndoubleDouble(s);
  }

  // ---------------------------------------------------------------------------
  // Group-by columns

  /** A metric's `groupByColumns`, the empty list when absent. */
  function DeclaredColumns(m: AggregationResult): seq<Value> {
    m.groupByColumns.GetOr([])
  }

  /** The column agreement scan over ms[i..], with `acc` the columns adopted
      so far (empty until some metric declares a non-empty list). */
  function AgreedColumns(ms: seq<AggregationResult>, i: nat, acc: seq<Value>): Result<seq<Value>>
    requires i <= |ms|
    decreases |ms| - i
  {
    if i == |ms| then Ok(acc)
    else
      var cols := DeclaredColumns(ms[i]);
      if acc != [] && acc != cols then Err(DatabaseError)
      else AgreedColumns(ms, i + 1, if acc == [] then cols else acc)
  }

  /** The group-by columns of an aggregation response. */
  function GroupByColumnNames(ms: seq<AggregationResult>): Result<seq<Value>> {
    AgreedColumns(ms, 0, [])
  }

  /** `k` is the first metric that declares a non-empty column list. */
  ghost predicate FirstDeclaredAt(ms: seq<AggregationResult>, k: int) {
    0 <= k < |ms| && DeclaredColumns(ms[k]) != []
    && forall i :: 0 <= i < k ==> DeclaredColumns(ms[i]) == []
  }

  method GetGroupByColumnNames(ms: seq<AggregationResult>) returns (r: Result<seq<Value>>)
    ensures r == GroupByColumnNames(ms)
  {
    var groupByCols: seq<Value> := [];
    var i := 0;
    while i < |ms|
      invariant i <= |ms|
      invariant AgreedColumns(ms, i, groupByCols) == GroupByColumnNames(ms)
    {
      var cols := DeclaredColumns(ms[i]);
      if groupByCols != [] && groupByCols != cols {
        return Err(DatabaseError);
      } else if groupByCols == [] {
        groupByCols := cols;
      }
      i := i + 1;
    }
    return Ok(groupByCols);
  }

  lemma {:induction false} AgreedColumnsAllEmpty(ms: seq<AggregationResult>, i: nat)
    requires i <= |ms|
    requires forall j :: i <= j < |ms| ==> DeclaredColumns(ms[j]) == []
    ensures AgreedColumns(ms, i, []) == Ok([])
    decreases |ms| - i
  {
    if i < |ms| {
      AgreedColumnsAllEmpty(ms, i + 1);
    }
  }

  lemma {:induction false} AgreedColumnsSkip(ms: seq<AggregationResult>, i: nat, k: nat)
    requires i <= k <= |ms|
    requires forall j :: i <= j < k ==> DeclaredColumns(ms[j]) == []
    ensures AgreedColumns(ms, i, []) == AgreedColumns(ms, k, [])
    decreases k - i
  {
    if i < k {
      AgreedColumnsSkip(ms, i + 1, k);
    }
  }

  lemma {:induction false} AgreedColumnsFixed(ms: seq<AggregationResult>, i: nat, acc: seq<Value>)
    requires i <= |ms| && acc != []
    ensures AgreedColumns(ms, i, acc).Ok? <==> forall j :: i <= j < |ms| ==> DeclaredColumns(ms[j]) == acc
    ensures AgreedColumns(ms, i, acc).Ok? ==> AgreedColumns(ms, i, acc).value == acc
    ensures AgreedColumns(ms, i, acc).Err? ==> AgreedColumns(ms, i, acc).error == DatabaseError
    decreases |ms| - i
  {
    if i < |ms| && DeclaredColumns(ms[i]) == acc {
      AgreedColumnsFixed(ms, i + 1, acc);
    }
  }

  lemma {:induction false} FindFirstDeclared(ms: seq<AggregationResult>, i: nat) returns (k: nat)
    requires i <= |ms|
    requires forall j :: 0 <= j < i ==> DeclaredColumns(ms[j]) == []
    requires exists j :: i <= j < |ms| && DeclaredColumns(ms[j]) != []
    ensures FirstDeclaredAt(ms, k)
    decreases |ms| - i
  {
    if DeclaredColumns(ms[i]) != [] {
      k := i;
    } else {
      k := FindFirstDeclared(ms, i + 1);
    }
  }

  /** With metric k the first to declare a non-empty list: the columns are
      that list, provided every later metric declares exactly it. */
  lemma GroupByColumnNamesAt(ms: seq<AggregationResult>, k: int)
    requires FirstDeclaredAt(ms, k)
    ensures GroupByColumnNames(ms).Ok? <==> forall j :: k < j < |ms| ==> DeclaredColumns(ms[j]) == DeclaredColumns(ms[k])
    ensures GroupByColumnNames(ms).Ok? ==> GroupByColumnNames(ms).value == DeclaredColumns(ms[k])
    ensures GroupByColumnNames(ms).Err? ==> GroupByColumnNames(ms).error == DatabaseError
  {
    AgreedColumnsSkip(ms, 0, k);
    AgreedColumnsFixed(ms, k + 1, DeclaredColumns(ms[k]));
  }

  /** The group-by columns are those of the first metric that declares a
      non-empty list, or none when no metric does; every later metric must
      declare exactly the same list (an empty one included), else the response
      is rejected with DatabaseError. */
  lemma GroupByColumnNamesSpec(ms: seq<AggregationResult>)
    ensures (forall i :: 0 <= i < |ms| ==> DeclaredColumns(ms[i]) == []) ==> GroupByColumnNames(ms) == Ok([])
    ensures forall k :: FirstDeclaredAt(ms, k) ==>
      (GroupByColumnNames(ms).Ok? <==> forall j :: k < j < |ms| ==> DeclaredColumns(ms[j]) == DeclaredColumns(ms[k]))
    ensures forall k :: FirstDeclaredAt(ms, k) && GroupByColumnNames(ms).Ok? ==> GroupByColumnNames(ms).value == DeclaredColumns(ms[k])
    ensures GroupByColumnNames(ms).Err? ==> GroupByColumnNames(ms).error == DatabaseError
  {
    forall k | FirstDeclaredAt(ms, k)
      ensures GroupByColumnNames(ms).Ok? <==> forall j :: k < j < |ms| ==> DeclaredColumns(ms[j]) == DeclaredColumns(ms[k])
      ensures GroupByColumnNames(ms).Ok? ==> GroupByColumnNames(ms).value == DeclaredColumns(ms[k])
    {
      GroupByColumnNamesAt(ms, k);
    }
    if forall i :: 0 <= i < |ms| ==> DeclaredColumns(ms[i]) == [] {
      AgreedColumnsAllEmpty(ms, 0);
    } else {
      var k := FindFirstDeclared(ms, 0);
      GroupByColumnNamesAt(ms, k);
    }
  }

  // ---------------------------------------------------------------------------
  // Value types and descriptions

  /** The type code of one non-null value. Strings are STRING; ints and floats
      are NUMBER; a boolean is also NUMBER, since Python's bool is a subclass
      of int and the number test comes first, so BOOLEAN is never produced.
      Anything else (null, list, object) raises Error. */
  function GetType(v: Value): (r: Result<ColumnType>)
    ensures r.Ok? <==> v.Str? || v.Int? || v.Flt? || v.Bool?
    ensures r == Ok(String) <==> v.Str?
    ensures r == Ok(Number) <==> v.Int? || v.Flt? || v.Bool?
    ensures r != Ok(Boolean)
    ensures r.Err? ==> r.error == Error
  {
    match v
    case Str(_) => Ok(String)
    case Int(_) => Ok(Number)
    case Flt(_) => Ok(Number)
    case Bool(_) => Ok(Number)
    case _ => Err(Error)
  }

  /** One description per (name, type) pair of the two lists zipped: the
      result is as long as the shorter list. */
  function DescriptionFromTypes(names: seq<Value>, types: seq<ColumnType>): (r: seq<ColumnDescription>)
    ensures |r| == Min(|names|, |types|)
    ensures forall i :: 0 <= i < |r| ==> r[i].name == names[i] && r[i].typeCode == types[i]
    ensures forall i :: 0 <= i < |r| ==>
      r[i].displaySize == r[i].internalSize == r[i].precision == r[i].scale == r[i].nullOk == Null
  {
    seq(Min(|names|, |types|), i requires 0 <= i < Min(|names|, |types|) =>
      ColumnDescription(names[i], types[i], Null, Null, Null, Null, Null))
  }
}
