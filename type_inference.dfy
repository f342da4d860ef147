/** Column type inference from result rows (the second, effective definition
    of get_types_from_rows in pypinot/helper.py). Rows are scanned in order;
    the first non-null value of a column fixes its type; the scan stops at the
    start of the first row after every column has a type. */
module TypeInference {
  import opened Protocol
  import opened Helper

  /** The inferred type per column so far; None while a column is unresolved. */
  type Slots = seq<Option<ColumnType>>

  /** The initial slots: every column unresolved. */
  function Unknown(n: nat): (ts: Slots)
    ensures |ts| == n && forall j :: 0 <= j < n ==> ts[j].None?
  {
    seq(n, _ => None)
  }

  /** How many columns are still unresolved (`remaining` in get_types_from_rows). */
  function Unresolved(ts: Slots): (r: nat)
    ensures r == 0 <==> forall j :: 0 <= j < |ts| ==> ts[j].Some?
    ensures (forall j :: 0 <= j < |ts| ==> ts[j].None?) ==> r == |ts|
    ensures r <= |ts|
  {
    if ts == [] then 0 else (if ts[0].None? then 1 else 0) + Unresolved(ts[1..])
  }

  lemma {:induction false} UnresolvedAfterResolve(ts: Slots, k: nat, t: ColumnType)
    requires k < |ts| && ts[k].None?
    ensures Unresolved(ts[k := Some(t)]) == Unresolved(ts) - 1
  {
    if k > 0 {
      UnresolvedAfterResolve(ts[1..], k - 1, t);
      assert ts[k := Some(t)][1..] == ts[1..][k - 1 := Some(t)];
    } else {
      assert ts[k := Some(t)][1..] == ts[1..];
    }
  }

  /** Scans row[k..] into the slots: a null is skipped; any other value is
      typed (which raises Error for a list or object), fixes an unresolved
      slot, and must agree with a resolved one. The mismatch message names an
      undefined variable, so a mismatch raises NameError. */
  function ScanValues(ts: Slots, row: Row, k: nat): (r: Result<Slots>)
    requires |row| == |ts| && k <= |row|
    ensures r.Ok? ==> |r.value| == |ts|
    decreases |row| - k
  {
    if k == |row| then Ok(ts)
    else if row[k] == Null then ScanValues(ts, row, k + 1)
    else match GetType(row[k])
      case Err(e) => Err(e)
      case Ok(t) =>
        if ts[k].None? then ScanValues(ts[k := Some(t)], row, k + 1)
        else if ts[k].value != t then Err(NameError)
        else ScanValues(ts, row, k + 1)
  }

  /** Scans rows[i..]: stops as soon as no column is unresolved; a row of the
      wrong width raises DatabaseError. */
  function ScanRows(ts: Slots, rows: seq<Row>, i: nat): (r: Result<Slots>)
    requires i <= |rows|
    ensures r.Ok? ==> |r.value| == |ts|
    decreases |rows| - i
  {
    if i == |rows| || Unresolved(ts) == 0 then Ok(ts)
    else if |rows[i]| != |ts| then Err(DatabaseError)
    else match ScanValues(ts, rows[i], 0)
      case Err(e) => Err(e)
      case Ok(ts') => ScanRows(ts', rows, i + 1)
  }

  /** The type of each column: none for no columns, InternalError for columns
      without rows, and DatabaseError when some column stays unresolved. */
  function InferTypes(cols: seq<Value>, rows: seq<Row>): (r: Result<seq<ColumnType>>)
    ensures cols == [] ==> r == Ok([])
    ensures cols != [] && rows == [] ==> r == Err(InternalError)
    ensures r.Ok? ==> |r.value| == |cols|
  {
    if cols == [] then Ok([])
    else if rows == [] then Err(InternalError)
    else match ScanRows(Unknown(|cols|), rows, 0)
      case Err(e) => Err(e)
      case Ok(ts) =>
        if None in ts then Err(DatabaseError)
        else Ok(seq(|ts|, j requires 0 <= j < |ts| => ts[j].value))
  }

  /** get_types_from_rows: loops over the rows and their values, filling the
      slots and counting down the unresolved columns, with an early break. */
  method GetTypesFromRows(cols: seq<Value>, rows: seq<Row>) returns (r: Result<seq<ColumnType>>)
    ensures r == InferTypes(cols, rows)
  {
    if |cols| == 0 {
      return Ok([]);
    }
    if |rows| == 0 {
      return Err(InternalError);
    }
    var types := Unknown(|cols|);
    var remaining := |cols|;
    var i := 0;
    while i < |rows|
      invariant i <= |rows| && |types| == |cols|
      invariant remaining == Unresolved(types)
      invariant ScanRows(types, rows, i) == ScanRows(Unknown(|cols|), rows, 0)
    {
      if remaining <= 0 {
        break;
      }
      var row := rows[i];
      if |row| != |cols| {
        return Err(DatabaseError);
      }
      ghost var before := types;
      var k := 0;
      while k < |row|
        invariant k <= |row| && |types| == |cols|
        invariant remaining == Unresolved(types)
        invariant ScanValues(types, row, k) == ScanValues(before, row, 0)
      {
        var value := row[k];
        if value != Null {
          var newType :- GetType(value);
          if types[k].None? {
            UnresolvedAfterResolve(types, k, newType);
            types := types[k := Some(newType)];
            remaining := remaining - 1;
          } else if newType != types[k].value {
            return Err(NameError);
          }
        }
        k := k + 1;
      }
      i := i + 1;
    }
    if None in types {
      return Err(DatabaseError);
    }
    return Ok(seq(|types|, j requires 0 <= j < |types| => types[j].value));
  }

  // ---------------------------------------------------------------------------
  // What the inferred types mean

  /** Row `i` holds the first non-null value of column `j`. */
  ghost predicate FirstNonNull(rows: seq<Row>, j: nat, i: int) {
    0 <= i < |rows| && j < |rows[i]| && rows[i][j] != Null
    && forall h :: 0 <= h < i ==> j < |rows[h]| && rows[h][j] == Null
  }

  /** `t` is the type of the first non-null value of column `j`. */
  ghost predicate FirstTypeIs(rows: seq<Row>, j: nat, t: ColumnType) {
    exists h :: FirstNonNull(rows, j, h) && GetType(rows[h][j]) == Ok(t)
  }

  /** The slot of column `j` is what the first `p` rows say about it. */
  ghost predicate SlotAgrees(slot: Option<ColumnType>, rows: seq<Row>, j: nat, p: nat) {
    p <= |rows| &&
    match slot
    case None => forall h :: 0 <= h < p ==> j < |rows[h]| && rows[h][j] == Null
    case Some(t) => exists h :: 0 <= h < p && FirstNonNull(rows, j, h) && GetType(rows[h][j]) == Ok(t)
  }

  /** The slots agree with rows[..i] and, for columns below `k`, with row `i`. */
  ghost predicate Agrees(ts: Slots, rows: seq<Row>, i: nat, k: nat) {
    forall j :: 0 <= j < |ts| ==> SlotAgrees(ts[j], rows, j, if j < k then i + 1 else i)
  }

  /** The first `p` rows pass the checks the scan makes: each has `n` values,
      every non-null value has a type, and the non-null values of a column
      all have the same type. */
  ghost predicate PassesChecks(rows: seq<Row>, n: nat, p: nat) {
    && p <= |rows|
    && (forall h :: 0 <= h < p ==> |rows[h]| == n)
    && (forall h, j :: 0 <= h < p && 0 <= j < |rows[h]| && rows[h][j] != Null ==> GetType(rows[h][j]).Ok?)
    && (forall h1, h2, j ::
          (0 <= h1 < p && 0 <= h2 < p && 0 <= j < |rows[h1]| && j < |rows[h2]|
           && rows[h1][j] != Null && rows[h2][j] != Null)
          ==> GetType(rows[h1][j]) == GetType(rows[h2][j]))
  }

  /** Every row has `n` values, every non-null value has a type, and the
      non-null values of a column all have the same type. */
  ghost predicate WellFormedRows(rows: seq<Row>, n: nat) {
    && (forall h :: 0 <= h < |rows| ==> |rows[h]| == n)
    && (forall h, j :: 0 <= h < |rows| && 0 <= j < |rows[h]| && rows[h][j] != Null ==> GetType(rows[h][j]).Ok?)
    && (forall h1, h2, j ::
          (0 <= h1 < |rows| && 0 <= h2 < |rows| && 0 <= j < |rows[h1]| && j < |rows[h2]|
           && rows[h1][j] != Null && rows[h2][j] != Null)
          ==> GetType(rows[h1][j]) == GetType(rows[h2][j]))
  }

  /** Some row among the first `p` has a non-null value in column `j`. */
  ghost predicate HasValueBelow(rows: seq<Row>, j: nat, p: nat) {
    exists h :: 0 <= h < p && h < |rows| && j < |rows[h]| && rows[h][j] != Null
  }

  /** Some row has a non-null value in column `j`. */
  ghost predicate HasValue(rows: seq<Row>, j: nat) {
    exists h :: 0 <= h < |rows| && j < |rows[h]| && rows[h][j] != Null
  }

  /** The first `p` rows give every one of `n` columns a non-null value. */
  ghost predicate Covered(rows: seq<Row>, n: nat, p: nat) {
    forall j :: 0 <= j < n ==> HasValueBelow(rows, j, p)
  }

  /** How many rows the scan reads, starting at row `p`: up to the first
      prefix that covers every column, or all of them. */
  ghost function ScanLength(rows: seq<Row>, n: nat, p: nat): (q: nat)
    requires p <= |rows|
    ensures p <= q <= |rows|
    ensures q < |rows| ==> Covered(rows, n, q)
    decreases |rows| - p
  {
    if p == |rows| || Covered(rows, n, p) then p else ScanLength(rows, n, p + 1)
  }

  lemma SlotAgreesLater(slot: Option<ColumnType>, rows: seq<Row>, j: nat, p: nat, q: nat)
    requires slot.Some? && SlotAgrees(slot, rows, j, p) && p <= q <= |rows|
    ensures SlotAgrees(slot, rows, j, q)
  {
    var h :| 0 <= h < p && FirstNonNull(rows, j, h) && GetType(rows[h][j]) == Ok(slot.value);
    assert 0 <= h < q;
  }

  lemma {:induction false} ScanValuesSpec(ts: Slots, rows: seq<Row>, i: nat, k: nat)
    requires i < |rows| && |rows[i]| == |ts| && k <= |ts|
    requires Agrees(ts, rows, i, k)
    ensures ScanValues(ts, rows[i], k).Ok? ==> Agrees(ScanValues(ts, rows[i], k).value, rows, i, |ts|)
    decreases |ts| - k
  {
    if k < |ts| {
      var v := rows[i][k];
      if v == Null {
        if ts[k].Some? {
          SlotAgreesLater(ts[k], rows, k, i, i + 1);
        }
        assert Agrees(ts, rows, i, k + 1);
        ScanValuesSpec(ts, rows, i, k + 1);
      } else if GetType(v).Ok? {
        var t := GetType(v).value;
        if ts[k].None? {
          assert FirstNonNull(rows, k, i);
          var ts' := ts[k := Some(t)];
          assert SlotAgrees(ts'[k], rows, k, i + 1);
          assert Agrees(ts', rows, i, k + 1);
          ScanValuesSpec(ts', rows, i, k + 1);
        } else {
          if ts[k].value == t {
            SlotAgreesLater(ts[k], rows, k, i, i + 1);
            assert Agrees(ts, rows, i, k + 1);
            ScanValuesSpec(ts, rows, i, k + 1);
          }
        }
      }
    }
  }

  lemma {:induction false} ScanRowsSpec(ts: Slots, rows: seq<Row>, i: nat)
    requires i <= |rows| && Agrees(ts, rows, i, 0)
    ensures ScanRows(ts, rows, i).Ok? ==> Agrees(ScanRows(ts, rows, i).value, rows, |rows|, 0)
    decreases |rows| - i
  {
    if i == |rows| {
    } else if Unresolved(ts) == 0 {
      forall j | 0 <= j < |ts| ensures SlotAgrees(ts[j], rows, j, |rows|) {
        SlotAgreesLater(ts[j], rows, j, i, |rows|);
      }
    } else if |rows[i]| == |ts| {
      ScanValuesSpec(ts, rows, i, 0);
      var next := ScanValues(ts, rows[i], 0);
      if next.Ok? {
        assert Agrees(next.value, rows, i + 1, 0);
        ScanRowsSpec(next.value, rows, i + 1);
      }
    }
  }

  /** Slots that agree with all of row `i` agree with rows[..i + 1]. */
  lemma AgreesNextRow(ts: Slots, rows: seq<Row>, i: nat, k: nat)
    requires k == |ts| && Agrees(ts, rows, i, k)
    ensures Agrees(ts, rows, i + 1, 0)
  {
  }

  /** Row `h` fails the scan's checks: it has the wrong width, or one of its
      non-null values has no type or a type differing from that of an earlier
      non-null value of its column. */
  ghost predicate BadRow(rows: seq<Row>, n: nat, h: nat)
    requires h < |rows|
  {
    || |rows[h]| != n
    || exists j :: 0 <= j < |rows[h]| && rows[h][j] != Null &&
         (|| GetType(rows[h][j]).Err?
          || exists h0 :: 0 <= h0 < h && j < |rows[h0]| && rows[h0][j] != Null && GetType(rows[h0][j]) != GetType(rows[h][j]))
  }

  /** A row whose scan fails is a bad row. */
  lemma ScanValuesFails(ts: Slots, rows: seq<Row>, i: nat)
    requires i < |rows| && |rows[i]| == |ts| && Agrees(ts, rows, i, 0)
    requires ScanValues(ts, rows[i], 0).Err?
    ensures BadRow(rows, |ts|, i)
  {
    ScanValuesChecks(ts, rows[i], 0);
    var j :| 0 <= j < |ts| && rows[i][j] != Null &&
      !(GetType(rows[i][j]).Ok? && (ts[j].Some? ==> GetType(rows[i][j]) == Ok(ts[j].value)));
    if GetType(rows[i][j]).Ok? {
      assert SlotAgrees(ts[j], rows, j, i);
      var h0 :| 0 <= h0 < i && FirstNonNull(rows, j, h0) && GetType(rows[h0][j]) == Ok(ts[j].value);
      assert GetType(rows[h0][j]) != GetType(rows[i][j]);
    }
  }

  /** A scan that fails has met a bad row. */
  lemma {:induction false} ScanRowsFails(ts: Slots, rows: seq<Row>, i: nat)
    requires i <= |rows| && Agrees(ts, rows, i, 0)
    requires ScanRows(ts, rows, i).Err?
    ensures exists h :: i <= h < |rows| && BadRow(rows, |ts|, h)
    decreases |rows| - i
  {
    if |rows[i]| != |ts| {
      assert BadRow(rows, |ts|, i);
    } else if ScanValues(ts, rows[i], 0).Err? {
      ScanValuesFails(ts, rows, i);
    } else {
      var next := ScanValues(ts, rows[i], 0).value;
      ScanValuesSpec(ts, rows, i, 0);
      AgreesNextRow(next, rows, i, |ts|);
      assert ScanRows(ts, rows, i) == ScanRows(next, rows, i + 1);
      ScanRowsFails(next, rows, i + 1);
    }
  }

  lemma BadRowNotWellFormed(rows: seq<Row>, n: nat, h: nat)
    requires h < |rows| && BadRow(rows, n, h)
    ensures !WellFormedRows(rows, n)
  {
    if |rows[h]| == n {
      var j :| 0 <= j < |rows[h]| && rows[h][j] != Null &&
        (|| GetType(rows[h][j]).Err?
         || exists h0 :: 0 <= h0 < h && j < |rows[h0]| && rows[h0][j] != Null && GetType(rows[h0][j]) != GetType(rows[h][j]));
    }
  }

  /** On well-formed rows the scan never fails. */
  lemma ScanRowsWellFormed(ts: Slots, rows: seq<Row>, i: nat)
    requires i <= |rows| && Agrees(ts, rows, i, 0)
    ensures WellFormedRows(rows, |ts|) ==> ScanRows(ts, rows, i).Ok?
  {
    if ScanRows(ts, rows, i).Err? {
      ScanRowsFails(ts, rows, i);
      var h :| i <= h < |rows| && BadRow(rows, |ts|, h);
      BadRowNotWellFormed(rows, |ts|, h);
    }
  }

  /** On success there is one type per column, and the type of column `j` is
      the type of its first non-null value in row order. */
  lemma InferTypesFirstNonNull(cols: seq<Value>, rows: seq<Row>)
    ensures InferTypes(cols, rows).Ok? ==> |InferTypes(cols, rows).value| == |cols|
    ensures InferTypes(cols, rows).Ok? ==> forall j :: 0 <= j < |cols| ==> FirstTypeIs(rows, j, InferTypes(cols, rows).value[j])
  {
    if cols != [] && rows != [] {
      ScanRowsSpec(Unknown(|cols|), rows, 0);
      var scan := ScanRows(Unknown(|cols|), rows, 0);
      if scan.Ok? && None !in scan.value {
        var r := InferTypes(cols, rows).value;
        forall j | 0 <= j < |cols|
          ensures FirstTypeIs(rows, j, r[j])
        {
          assert scan.value[j] != None;
          assert r[j] == scan.value[j].value;
          assert SlotAgrees(scan.value[j], rows, j, |rows|);
        }
        assert InferTypes(cols, rows) == Ok(r);
      }
    }
  }

  lemma NullColumnHasNoType(rows: seq<Row>, j: nat)
    requires forall h :: 0 <= h < |rows| && j < |rows[h]| ==> rows[h][j] == Null
    ensures forall t :: !FirstTypeIs(rows, j, t)
  {
  }

  /** A column that is null in every row (as far as the row reaches) makes
      inference fail; with well-formed rows the failure is DatabaseError. */
  lemma InferTypesNullColumn(cols: seq<Value>, rows: seq<Row>, j: nat)
    requires j < |cols|
    requires forall h :: 0 <= h < |rows| && j < |rows[h]| ==> rows[h][j] == Null
    ensures InferTypes(cols, rows).Err?
    ensures rows != [] && WellFormedRows(rows, |cols|) ==> InferTypes(cols, rows) == Err(DatabaseError)
  {
    InferTypesFirstNonNull(cols, rows);
    assert InferTypes(cols, rows).Ok? ==> FirstTypeIs(rows, j, InferTypes(cols, rows).value[j]);
    NullColumnHasNoType(rows, j);
    if rows != [] && WellFormedRows(rows, |cols|) {
      ScanRowsWellFormed(Unknown(|cols|), rows, 0);
    }
  }

  /** Rows that are well formed, with a non-null value in every column, always
      yield a type for every column. */
  lemma InferTypesSucceeds(cols: seq<Value>, rows: seq<Row>)
    requires WellFormedRows(rows, |cols|)
    requires forall j :: 0 <= j < |cols| ==> HasValue(rows, j)
    ensures InferTypes(cols, rows).Ok?
  {
    if cols != [] {
      assert rows != [] by {
        assert HasValue(rows, 0);
      }
      ScanRowsWellFormed(Unknown(|cols|), rows, 0);
      ScanRowsSpec(Unknown(|cols|), rows, 0);
      var ts := ScanRows(Unknown(|cols|), rows, 0).value;
      forall j | 0 <= j < |ts| ensures ts[j].Some? {
        assert HasValue(rows, j);
        var h :| 0 <= h < |rows| && j < |rows[h]| && rows[h][j] != Null;
        assert SlotAgrees(ts[j], rows, j, |rows|);
      }
    }
  }

  /** Inference fails only for a reason: there are no rows, some row is bad,
      or some column has no non-null value. */
  lemma InferTypesFailsForAReason(cols: seq<Value>, rows: seq<Row>)
    ensures InferTypes(cols, rows).Err? ==>
      && cols != []
      && (|| rows == []
          || (exists h :: 0 <= h < |rows| && BadRow(rows, |cols|, h))
          || exists j :: 0 <= j < |cols| && !HasValue(rows, j))
  {
    if cols != [] && rows != [] {
      var scan := ScanRows(Unknown(|cols|), rows, 0);
      if scan.Err? {
        ScanRowsFails(Unknown(|cols|), rows, 0);
      } else if None in scan.value {
        ScanRowsSpec(Unknown(|cols|), rows, 0);
        var j :| 0 <= j < |scan.value| && scan.value[j] == None;
        assert SlotAgrees(scan.value[j], rows, j, |rows|);
        assert !HasValue(rows, j);
      }
    }
  }

  /** A scan of row[k..] succeeds exactly when every non-null value in it has
      a type, agreeing with its column's slot when that is already set. */
  lemma {:induction false} ScanValuesChecks(ts: Slots, row: Row, k: nat)
    requires |row| == |ts| && k <= |row|
    ensures ScanValues(ts, row, k).Ok? <==> forall j :: k <= j < |row| && row[j] != Null ==>
      && GetType(row[j]).Ok?
      && (ts[j].Some? ==> GetType(row[j]) == Ok(ts[j].value))
    decreases |row| - k
  {
    if k < |row| {
      if row[k] == Null {
        ScanValuesChecks(ts, row, k + 1);
      } else if GetType(row[k]).Ok? {
        var t := GetType(row[k]).value;
        if ts[k].None? {
          ScanValuesChecks(ts[k := Some(t)], row, k + 1);
        } else if ts[k].value == t {
          ScanValuesChecks(ts, row, k + 1);
        }
      }
    }
  }

  /** With the slots agreeing with rows[..i], every column is resolved exactly
      when rows[..i] cover every column. */
  lemma ResolvedIffCovered(ts: Slots, rows: seq<Row>, i: nat)
    requires i <= |rows| && Agrees(ts, rows, i, 0)
    ensures Unresolved(ts) == 0 <==> Covered(rows, |ts|, i)
  {
    if Unresolved(ts) == 0 {
      forall j | 0 <= j < |ts| ensures HasValueBelow(rows, j, i) {
        assert SlotAgrees(ts[j], rows, j, i);
      }
    } else {
      var j :| 0 <= j < |ts| && ts[j].None?;
      assert SlotAgrees(ts[j], rows, j, i);
      assert !HasValueBelow(rows, j, i);
    }
  }

  /** Row `i` extends a checked prefix when it has `n` values, each of its
      non-null values has a type, and that type is the one of every earlier
      non-null value of its column. */
  lemma PassesChecksExtend(rows: seq<Row>, n: nat, i: nat)
    requires i < |rows| && |rows[i]| == n && PassesChecks(rows, n, i)
    requires forall j :: 0 <= j < n && rows[i][j] != Null ==> GetType(rows[i][j]).Ok?
    requires forall h, j :: 0 <= h < i && 0 <= j < |rows[h]| && j < n && rows[h][j] != Null && rows[i][j] != Null ==>
      GetType(rows[h][j]) == GetType(rows[i][j])
    ensures PassesChecks(rows, n, i + 1)
  {
    forall h1, h2, j | 0 <= h1 < i + 1 && 0 <= h2 < i + 1 && 0 <= j < |rows[h1]| && j < |rows[h2]|
                       && rows[h1][j] != Null && rows[h2][j] != Null
      ensures GetType(rows[h1][j]) == GetType(rows[h2][j])
    {
    }
  }

  /** Scanning row `i` successfully extends the checked prefix by that row. */
  lemma PassesChecksStep(ts: Slots, rows: seq<Row>, i: nat)
    requires i < |rows| && |rows[i]| == |ts|
    requires Agrees(ts, rows, i, 0) && PassesChecks(rows, |ts|, i)
    requires ScanValues(ts, rows[i], 0).Ok?
    ensures PassesChecks(rows, |ts|, i + 1)
  {
    ScanValuesChecks(ts, rows[i], 0);
    forall h, j | 0 <= h < i && 0 <= j < |rows[h]| && j < |ts| && rows[h][j] != Null && rows[i][j] != Null
      ensures GetType(rows[h][j]) == GetType(rows[i][j])
    {
      SameTypeAsSlot(ts, rows, i, h, j);
    }
    PassesChecksExtend(rows, |ts|, i);
  }

  /** A non-null value of an earlier row has the type of its column's slot,
      and so does the non-null value of row `i` the scan accepted. */
  lemma SameTypeAsSlot(ts: Slots, rows: seq<Row>, i: nat, h: nat, j: nat)
    requires i < |rows| && |rows[i]| == |ts| && h < i && j < |ts|
    requires Agrees(ts, rows, i, 0) && PassesChecks(rows, |ts|, i)
    requires ScanValues(ts, rows[i], 0).Ok?
    requires rows[h][j] != Null && rows[i][j] != Null
    ensures GetType(rows[h][j]) == GetType(rows[i][j])
  {
    ScanValuesChecks(ts, rows[i], 0);
    assert SlotAgrees(ts[j], rows, j, i);
    var h0 :| 0 <= h0 < i && FirstNonNull(rows, j, h0) && GetType(rows[h0][j]) == Ok(ts[j].value);
    assert GetType(rows[h][j]) == GetType(rows[h0][j]);
  }

  lemma {:induction false} ScanRowsChecks(ts: Slots, rows: seq<Row>, i: nat)
    requires i <= |rows| && Agrees(ts, rows, i, 0) && PassesChecks(rows, |ts|, i)
    requires ScanRows(ts, rows, i).Ok?
    ensures PassesChecks(rows, |ts|, ScanLength(rows, |ts|, i))
    decreases |rows| - i
  {
    if i < |rows| {
      ResolvedIffCovered(ts, rows, i);
      if Unresolved(ts) != 0 {
        assert ScanLength(rows, |ts|, i) == ScanLength(rows, |ts|, i + 1);
        PassesChecksStep(ts, rows, i);
        ScanValuesSpec(ts, rows, i, 0);
        var next := ScanValues(ts, rows[i], 0).value;
        assert ScanRows(ts, rows, i) == ScanRows(next, rows, i + 1);
        ScanRowsChecks(next, rows, i + 1);
      } else {
        assert ScanLength(rows, |ts|, i) == i;
      }
    }
  }

  /** Inference succeeds only if the rows it scans (up to the first prefix
      that gives every column a value) each have one value per column and
      every non-null value among them has its column's inferred type: a
      scanned row of the wrong width, an untypable value or a conflicting
      type makes it fail. */
  lemma InferTypesChecksScanned(cols: seq<Value>, rows: seq<Row>)
    ensures InferTypes(cols, rows).Ok? ==>
      var p := ScanLength(rows, |cols|, 0);
      && (forall h :: 0 <= h < p ==> |rows[h]| == |cols|)
      && forall h, j :: 0 <= h < p && 0 <= j < |rows[h]| && rows[h][j] != Null ==>
           GetType(rows[h][j]) == Ok(InferTypes(cols, rows).value[j])
  {
    if cols != [] && rows != [] && InferTypes(cols, rows).Ok? {
      var n := |cols|;
      var p := ScanLength(rows, n, 0);
      var r := InferTypes(cols, rows).value;
      ScanRowsChecks(Unknown(n), rows, 0);
      InferTypesFirstNonNull(cols, rows);
      forall h, j | 0 <= h < p && 0 <= j < |rows[h]| && rows[h][j] != Null
        ensures GetType(rows[h][j]) == Ok(r[j])
      {
        assert FirstTypeIs(rows, j, r[j]);
        var h0 :| FirstNonNull(rows, j, h0) && GetType(rows[h0][j]) == Ok(r[j]);
        assert h0 <= h;
      }
    }
  }

  lemma {:induction false} ScanRowsExtended(ts: Slots, rows: seq<Row>, extra: seq<Row>, i: nat)
    requires i <= |rows|
    requires ScanRows(ts, rows, i).Ok? && Unresolved(ScanRows(ts, rows, i).value) == 0
    ensures ScanRows(ts, rows + extra, i) == ScanRows(ts, rows, i)
    decreases |rows| - i
  {
    if i < |rows| && Unresolved(ts) != 0 {
      assert (rows + extra)[i] == rows[i];
      ScanRowsExtended(ScanValues(ts, rows[i], 0).value, rows, extra, i + 1);
    }
  }

  /** Once the rows scanned so far resolve every column, the scan stops:
      further rows, however malformed, do not change the outcome. */
  lemma InferTypesStopsWhenResolved(cols: seq<Value>, rows: seq<Row>, extra: seq<Row>)
    requires InferTypes(cols, rows).Ok?
    ensures InferTypes(cols, rows + extra) == InferTypes(cols, rows)
  {
    if cols != [] {
      var ts := ScanRows(Unknown(|cols|), rows, 0).value;
      assert Unresolved(ts) == 0;
      ScanRowsExtended(Unknown(|cols|), rows, extra, 0);
    }
  }
}
