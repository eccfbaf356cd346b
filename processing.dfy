/**
 * The training-data cleaner of src/data/run_processing_test.py:
 * clean_data imputes missing cells column by column (median for numeric
 * columns, first mode for the others) on a copy of the table, then hands
 * the 'price' column to remove_outliers_isolation_forest, which keeps
 * exactly the rows the anomaly detector labels 1.
 *
 * A table is a row count and a sequence of typed columns; the Isolation
 * Forest is an opaque detector that either rejects its input or returns
 * one label per row.
 */
module Processing {
  import opened Wrappers
  import Stats

  // ---------------------------------------------------------------------
  // Tables

  /** pandas' is_numeric_dtype, decided per column. */
  datatype Kind = Numeric | Categorical

  datatype Value = Num(x: real) | Str(s: string)

  /** A cell; None is a missing value (NaN). */
  type Cell = Option<Value>

  datatype Column = Column(name: string, kind: Kind, cells: seq<Cell>)

  datatype Table = Table(rows: nat, columns: seq<Column>)

  /** Numeric columns hold numbers, the others hold strings. */
  predicate WellTyped(c: Column) {
    forall i :: 0 <= i < |c.cells| && c.cells[i].Some? ==> (c.kind == Numeric <==> c.cells[i].value.Num?)
  }

  /** Every column has one cell per row and cells of its own kind. */
  predicate Valid(t: Table) {
    forall j :: 0 <= j < |t.columns| ==> |t.columns[j].cells| == t.rows && WellTyped(t.columns[j])
  }

  /** Row i across all columns. */
  function RowAt(t: Table, i: nat): (row: seq<Cell>)
    requires Valid(t) && i < t.rows
    ensures |row| == |t.columns|
    ensures forall j :: 0 <= j < |t.columns| ==> row[j] == t.columns[j].cells[i]
  {
    seq(|t.columns|, j requires 0 <= j < |t.columns| => t.columns[j].cells[i])
  }

  /** The failures clean_data can raise. */
  datatype CleanError =
    | NoModeForEmptyColumn(column: string)  // mode()[0] on a categorical column with no value at all
    | AmbiguousColumn(column: string)       // `if missing_count > 0` on a label two columns share
    | MissingColumn(column: string)         // df[columns] with a column the table lacks
    | DetectorRejected                      // fit_predict refused its input
    | MaskLengthMismatch                    // a label array whose length is not the row count

  // ---------------------------------------------------------------------
  // Column statistics inputs

  predicate AllMissing(cells: seq<Cell>) {
    forall i :: 0 <= i < |cells| ==> cells[i].None?
  }

  /** isnull().sum() */
  function MissingCount(cells: seq<Cell>): (n: nat)
    ensures n <= |cells|
    ensures n == 0 <==> forall i :: 0 <= i < |cells| ==> cells[i].Some?
    ensures n == |cells| <==> AllMissing(cells)
  {
    if cells == [] then 0
    else
      var rest := MissingCount(cells[1..]);
      assert forall i :: 1 <= i < |cells| ==> cells[i] == cells[1..][i - 1];
      (if cells[0].None? then 1 else 0) + rest
  }

  /** The non-missing numbers of a column, in row order. */
  function NumbersOf(cells: seq<Cell>): (xs: seq<real>)
    ensures |xs| == 0 <==> forall i :: 0 <= i < |cells| ==> !(cells[i].Some? && cells[i].value.Num?)
    ensures forall k :: 0 <= k < |xs| ==> Some(Num(xs[k])) in cells
  {
    if cells == [] then []
    else
      var rest := NumbersOf(cells[1..]);
      assert forall i :: 1 <= i < |cells| ==> cells[i] == cells[1..][i - 1];
      match cells[0]
      case Some(Num(x)) => [x] + rest
      case _ => rest
  }

  /** The non-missing strings of a column, in row order. */
  function StringsOf(cells: seq<Cell>): (ss: seq<string>)
    ensures |ss| == 0 <==> forall i :: 0 <= i < |cells| ==> !(cells[i].Some? && cells[i].value.Str?)
    ensures forall k :: 0 <= k < |ss| ==> Some(Str(ss[k])) in cells
  {
    if cells == [] then []
    else
      var rest := StringsOf(cells[1..]);
      assert forall i :: 1 <= i < |cells| ==> cells[i] == cells[1..][i - 1];
      match cells[0]
      case Some(Str(s)) => [s] + rest
      case _ => rest
  }

  /** Every present number of the column is passed on, as often as it occurs. */
  lemma {:induction false} NumbersOfComplete(cells: seq<Cell>, x: real)
    ensures multiset(NumbersOf(cells))[x] == multiset(cells)[Some(Num(x))]
  {
    if cells != [] {
      NumbersOfComplete(cells[1..], x);
      CountOfHead(cells, Some(Num(x)));
      NumbersOfHead(cells, x);
    }
  }

  /** Every present string of the column is passed on, as often as it occurs. */
  lemma {:induction false} StringsOfComplete(cells: seq<Cell>, v: string)
    ensures multiset(StringsOf(cells))[v] == multiset(cells)[Some(Str(v))]
  {
    if cells != [] {
      StringsOfComplete(cells[1..], v);
      CountOfHead(cells, Some(Str(v)));
      StringsOfHead(cells, v);
    }
  }

  lemma CountOfHead(cells: seq<Cell>, c: Cell)
    requires cells != []
    ensures multiset(cells)[c] == (if cells[0] == c then 1 else 0) + multiset(cells[1..])[c]
  {
    assert cells == [cells[0]] + cells[1..];
  }

  lemma NumbersOfHead(cells: seq<Cell>, x: real)
    requires cells != []
    ensures multiset(NumbersOf(cells))[x] ==
      (if cells[0] == Some(Num(x)) then 1 else 0) + multiset(NumbersOf(cells[1..]))[x]
  {
    match cells[0]
    case Some(Num(y)) => assert NumbersOf(cells) == [y] + NumbersOf(cells[1..]);
    case _ =>
  }

  lemma StringsOfHead(cells: seq<Cell>, v: string)
    requires cells != []
    ensures multiset(StringsOf(cells))[v] ==
      (if cells[0] == Some(Str(v)) then 1 else 0) + multiset(StringsOf(cells[1..]))[v]
  {
    match cells[0]
    case Some(Str(w)) => assert StringsOf(cells) == [w] + StringsOf(cells[1..]);
    case _ =>
  }

  /**
   * The fill value mode()[0], read on the column itself: a string some cell
   * holds, held by at least as many cells as any other string, and the
   * least in string order among those held equally often.
   */
  lemma ModeOfCells(cells: seq<Cell>)
    requires |StringsOf(cells)| > 0
    ensures var m := Stats.Mode(StringsOf(cells));
      && Some(Str(m)) in cells
      && (forall v :: multiset(cells)[Some(Str(v))] <= multiset(cells)[Some(Str(m))])
      && (forall v :: multiset(cells)[Some(Str(v))] == multiset(cells)[Some(Str(m))] ==> Stats.StrLe(m, v))
  {
    var m := Stats.Mode(StringsOf(cells));
    StringsOfComplete(cells, m);
    forall v ensures multiset(cells)[Some(Str(v))] == Stats.Occurrences(StringsOf(cells), v) {
      StringsOfComplete(cells, v);
    }
  }

  /** fillna(v): every missing cell becomes v, every present cell stays. */
  function FillMissing(cells: seq<Cell>, v: Value): (r: seq<Cell>)
    ensures |r| == |cells|
    ensures forall i :: 0 <= i < |cells| && cells[i].Some? ==> r[i] == cells[i]
    ensures forall i :: 0 <= i < |cells| && cells[i].None? ==> r[i] == Some(v)
  {
    if cells == [] then []
    else [if cells[0].None? then Some(v) else cells[0]] + FillMissing(cells[1..], v)
  }

  // ---------------------------------------------------------------------
  // Imputation, one column

  /**
   * One pass of clean_data's loop. A numeric column with no value at all is
   * left as it is (its median is NaN and fillna(NaN) fills nothing); a
   * categorical one fails, because its mode is empty.
   */
  function ImputeColumn(c: Column): (r: Result<Column, CleanError>)
    ensures r.Success? ==> r.value.name == c.name && r.value.kind == c.kind && |r.value.cells| == |c.cells|
    ensures r.Failure? ==> c.kind == Categorical && r.error == NoModeForEmptyColumn(c.name)
  {
    if MissingCount(c.cells) == 0 then Success(c)
    else if c.kind == Numeric then
      var present := NumbersOf(c.cells);
      if |present| == 0 then Success(c)
      else Success(c.(cells := FillMissing(c.cells, Num(Stats.Median(present)))))
    else
      assert c.kind == Categorical;
      var present := StringsOf(c.cells);
      if |present| == 0 then Failure(NoModeForEmptyColumn(c.name))
      else Success(c.(cells := FillMissing(c.cells, Str(Stats.Mode(present)))))
  }

  /** Imputing a column fails exactly for a categorical column whose every cell (of at least one) is missing. */
  lemma ImputeColumnFails(c: Column)
    requires WellTyped(c)
    ensures ImputeColumn(c).Failure? <==> c.kind == Categorical && |c.cells| > 0 && AllMissing(c.cells)
    ensures ImputeColumn(c).Failure? ==> ImputeColumn(c).error == NoModeForEmptyColumn(c.name)
  {
    if c.kind == Categorical && MissingCount(c.cells) > 0 && |StringsOf(c.cells)| == 0 {
      assert AllMissing(c.cells);
    }
  }

  /** What imputation keeps: name, kind, length, every present cell; and a complete column entirely. */
  lemma ImputeColumnKeeps(c: Column)
    requires WellTyped(c)
    requires ImputeColumn(c).Success?
    ensures var d := ImputeColumn(c).value;
      && d.name == c.name && d.kind == c.kind && |d.cells| == |c.cells|
      && WellTyped(d)
      && (forall i :: 0 <= i < |c.cells| && c.cells[i].Some? ==> d.cells[i] == c.cells[i])
      && (MissingCount(c.cells) == 0 ==> d == c)
      && (AllMissing(c.cells) ==> d == c)
  {
    if !AllMissing(c.cells) && MissingCount(c.cells) > 0 {
      var i :| 0 <= i < |c.cells| && c.cells[i].Some?;
      if c.kind == Numeric {
        assert c.cells[i].value.Num?;
      } else {
        assert c.cells[i].value.Str?;
      }
    }
  }

  /** A numeric column with a present number ends with its missing cells set to the median. */
  lemma ImputeNumericFills(c: Column)
    requires WellTyped(c) && c.kind == Numeric
    requires !AllMissing(c.cells)
    ensures |NumbersOf(c.cells)| > 0
    ensures ImputeColumn(c).Success?
    ensures MissingCount(ImputeColumn(c).value.cells) == 0
    ensures forall i :: 0 <= i < |c.cells| && c.cells[i].None? ==>
      ImputeColumn(c).value.cells[i] == Some(Num(Stats.Median(NumbersOf(c.cells))))
  {
    var i :| 0 <= i < |c.cells| && c.cells[i].Some?;
    assert c.cells[i].value.Num?;
  }

  /** A categorical column with a present string ends with its missing cells set to the first mode. */
  lemma ImputeCategoricalFills(c: Column)
    requires WellTyped(c) && c.kind == Categorical
    requires !AllMissing(c.cells)
    ensures |StringsOf(c.cells)| > 0
    ensures ImputeColumn(c).Success?
    ensures MissingCount(ImputeColumn(c).value.cells) == 0
    ensures forall i :: 0 <= i < |c.cells| && c.cells[i].None? ==>
      ImputeColumn(c).value.cells[i] == Some(Str(Stats.Mode(StringsOf(c.cells))))
  {
    var i :| 0 <= i < |c.cells| && c.cells[i].Some?;
    assert c.cells[i].value.Str?;
  }

  /** What imputation fills: a column with a present value ends with no missing cell, filled with its median or mode. */
  lemma ImputeColumnFills(c: Column)
    requires WellTyped(c)
    requires !AllMissing(c.cells)
    ensures ImputeColumn(c).Success?
    ensures var d := ImputeColumn(c).value;
      && MissingCount(d.cells) == 0
      && (c.kind == Numeric ==>
            && |NumbersOf(c.cells)| > 0
            && forall i :: 0 <= i < |c.cells| && c.cells[i].None? ==>
                 d.cells[i] == Some(Num(Stats.Median(NumbersOf(c.cells)))))
      && (c.kind == Categorical ==>
            && |StringsOf(c.cells)| > 0
            && forall i :: 0 <= i < |c.cells| && c.cells[i].None? ==>
                 d.cells[i] == Some(Str(Stats.Mode(StringsOf(c.cells)))))
  {
    if c.kind == Numeric {
      ImputeNumericFills(c);
    } else {
      ImputeCategoricalFills(c);
    }
  }

  // ---------------------------------------------------------------------
  // Column labels

  /** df.columns: the labels of the columns, in order. */
  function Names(cs: seq<Column>): (ns: seq<string>)
    ensures |ns| == |cs|
    ensures forall j :: 0 <= j < |cs| ==> ns[j] == cs[j].name
  {
    seq(|cs|, j requires 0 <= j < |cs| => cs[j].name)
  }

  /** A label more than one column carries: df[name] then selects a DataFrame, not a Series. */
  predicate Repeated(names: seq<string>, name: string)
    ensures Repeated(names, name) ==> name in names
  {
    multiset(names)[name] > 1
  }

  predicate DistinctNames(cs: seq<Column>) {
    forall j, k :: 0 <= j < k < |cs| ==> cs[j].name != cs[k].name
  }

  /** A column's label is repeated exactly when another column carries it too. */
  lemma RepeatedIff(cs: seq<Column>, j: nat)
    requires j < |cs|
    ensures Repeated(Names(cs), cs[j].name) <==>
      exists k :: 0 <= k < |cs| && k != j && cs[k].name == cs[j].name
  {
    var ns := Names(cs);
    CountWithout(ns, j);
    ElementsWithout(ns, j, ns[j]);
    assert Repeated(ns, ns[j]) <==> ns[j] in ns[..j] + ns[j + 1..];
  }

  /** Taking out entry j leaves one copy fewer of its value. */
  lemma CountWithout(ns: seq<string>, j: nat)
    requires j < |ns|
    ensures multiset(ns)[ns[j]] == multiset(ns[..j] + ns[j + 1..])[ns[j]] + 1
  {
    assert ns == ns[..j] + [ns[j]] + ns[j + 1..];
  }

  /** The values left after taking out entry j are those at the other positions. */
  lemma ElementsWithout(ns: seq<string>, j: nat, x: string)
    requires j < |ns|
    ensures x in ns[..j] + ns[j + 1..] <==> exists k :: 0 <= k < |ns| && k != j && ns[k] == x
  {
    var others := ns[..j] + ns[j + 1..];
    assert forall k :: 0 <= k < j ==> others[k] == ns[k];
    assert forall k :: j < k < |ns| ==> others[k - 1] == ns[k];
    if x in others {
      var m :| 0 <= m < |others| && others[m] == x;
      var k := if m < j then m else m + 1;
      assert ns[k] == x;
    }
  }

  /** No label is repeated exactly when the column names are pairwise distinct. */
  lemma DistinctNamesIff(cs: seq<Column>)
    ensures DistinctNames(cs) <==> forall j :: 0 <= j < |cs| ==> !Repeated(Names(cs), cs[j].name)
  {
    forall j | 0 <= j < |cs|
      ensures Repeated(Names(cs), cs[j].name) <==>
        exists k :: 0 <= k < |cs| && k != j && cs[k].name == cs[j].name
    {
      RepeatedIff(cs, j);
    }
  }

  // ---------------------------------------------------------------------
  // Imputation, all columns

  /**
   * One pass of the loop in a frame whose column labels are names. For a
   * label that two columns share, df_cleaned[column] is a DataFrame, its
   * isnull().sum() a Series, and `if missing_count > 0` raises ValueError.
   */
  function ImputeColumnIn(names: seq<string>, c: Column): (r: Result<Column, CleanError>)
    ensures r.Success? ==>
      && !Repeated(names, c.name)
      && r.value.name == c.name && r.value.kind == c.kind && |r.value.cells| == |c.cells|
    ensures r.Failure? ==>
      r.error == (if Repeated(names, c.name) then AmbiguousColumn(c.name) else NoModeForEmptyColumn(c.name))
    ensures r.Failure? && !Repeated(names, c.name) ==> c.kind == Categorical
  {
    if Repeated(names, c.name) then Failure(AmbiguousColumn(c.name)) else ImputeColumn(c)
  }

  /** The loop body as a function value, for the stop-at-first-failure loop. */
  function ImputeIn(names: seq<string>): Column -> Result<Column, CleanError> {
    c => ImputeColumnIn(names, c)
  }

  lemma ImputeInApply(names: seq<string>, c: Column)
    ensures ImputeIn(names)(c) == ImputeColumnIn(names, c)
  {
  }

  /** The loop over the columns, in order; the first failing column raises. */
  function ImputeColumns(cs: seq<Column>): (r: Result<seq<Column>, CleanError>)
    ensures r.Success? ==>
      && |r.value| == |cs|
      && DistinctNames(cs)
      && forall j :: 0 <= j < |cs| ==> r.value[j].name == cs[j].name && r.value[j].kind == cs[j].kind
    ensures r.Failure? ==>
      exists j :: 0 <= j < |cs| &&
        (r.error == NoModeForEmptyColumn(cs[j].name) || r.error == AmbiguousColumn(cs[j].name))
  {
    var f := ImputeIn(Names(cs));
    MapUntilFailurePointwise(f, cs);
    forall j | 0 <= j < |cs| ensures f(cs[j]) == ImputeColumnIn(Names(cs), cs[j]) {
      ImputeInApply(Names(cs), cs[j]);
    }
    DistinctNamesIff(cs);
    MapUntilFailure(f, cs)
  }

  /**
   * Columns are imputed independently, in order: the loop succeeds exactly
   * when no label is repeated and every column imputes on its own, and then
   * each output column is its input column imputed alone. Otherwise it
   * raises at the first column with a repeated label or a failing imputation.
   */
  lemma ImputeColumnsPointwise(cs: seq<Column>)
    ensures ImputeColumns(cs).Success? <==>
      forall j :: 0 <= j < |cs| ==> !Repeated(Names(cs), cs[j].name) && ImputeColumn(cs[j]).Success?
    ensures ImputeColumns(cs).Success? ==>
      && DistinctNames(cs)
      && |ImputeColumns(cs).value| == |cs|
      && forall j :: 0 <= j < |cs| ==> ImputeColumns(cs).value[j] == ImputeColumn(cs[j]).value
    ensures ImputeColumns(cs).Failure? ==>
      exists j :: 0 <= j < |cs|
        && (Repeated(Names(cs), cs[j].name) || ImputeColumn(cs[j]).Failure?)
        && ImputeColumns(cs).error ==
             (if Repeated(Names(cs), cs[j].name) then AmbiguousColumn(cs[j].name) else ImputeColumn(cs[j]).error)
        && forall k :: 0 <= k < j ==> !Repeated(Names(cs), cs[k].name) && ImputeColumn(cs[k]).Success?
  {
    ImputeColumnsSucceed(cs);
    if ImputeColumns(cs).Failure? {
      ImputeColumnsRaise(cs);
    }
  }

  lemma ImputeColumnsSucceed(cs: seq<Column>)
    ensures ImputeColumns(cs).Success? <==>
      forall j :: 0 <= j < |cs| ==> !Repeated(Names(cs), cs[j].name) && ImputeColumn(cs[j]).Success?
    ensures ImputeColumns(cs).Success? ==>
      && DistinctNames(cs)
      && |ImputeColumns(cs).value| == |cs|
      && forall j :: 0 <= j < |cs| ==> ImputeColumns(cs).value[j] == ImputeColumn(cs[j]).value
  {
    var f := ImputeIn(Names(cs));
    MapUntilFailurePointwise(f, cs);
    forall j | 0 <= j < |cs| ensures f(cs[j]) == ImputeColumnIn(Names(cs), cs[j]) {
      ImputeInApply(Names(cs), cs[j]);
    }
    DistinctNamesIff(cs);
  }

  lemma ImputeColumnsRaise(cs: seq<Column>)
    requires ImputeColumns(cs).Failure?
    ensures exists j ::
      && 0 <= j < |cs|
      && (Repeated(Names(cs), cs[j].name) || ImputeColumn(cs[j]).Failure?)
      && ImputeColumns(cs).error ==
           (if Repeated(Names(cs), cs[j].name) then AmbiguousColumn(cs[j].name) else ImputeColumn(cs[j]).error)
      && forall k :: 0 <= k < j ==> !Repeated(Names(cs), cs[k].name) && ImputeColumn(cs[k]).Success?
  {
    var f := ImputeIn(Names(cs));
    MapUntilFailurePointwise(f, cs);
    var j :| 0 <= j < |cs| && f(cs[j]).Failure? && ImputeColumns(cs).error == f(cs[j]).error
      && forall k :: 0 <= k < j ==> f(cs[k]).Success?;
    ImputeInApply(Names(cs), cs[j]);
    forall k | 0 <= k < j ensures !Repeated(Names(cs), cs[k].name) && ImputeColumn(cs[k]).Success? {
      ImputeInApply(Names(cs), cs[k]);
    }
  }

  function ImputeTable(t: Table): (r: Result<Table, CleanError>)
    ensures r.Success? ==> r.value.rows == t.rows && |r.value.columns| == |t.columns|
    ensures r.Success? && Valid(t) ==> Valid(r.value)
  {
    match ImputeColumns(t.columns)
    case Failure(e) => Failure(e)
    case Success(cs) =>
      ImputeColumnsPointwise(t.columns);
      assert Valid(t) ==> Valid(Table(t.rows, cs)) by {
        if Valid(t) {
          forall j | 0 <= j < |cs| ensures |cs[j].cells| == t.rows && WellTyped(cs[j]) {
            ImputeColumnKeeps(t.columns[j]);
          }
        }
      }
      Success(Table(t.rows, cs))
  }

  /**
   * Table-level imputation: it fails exactly when a categorical column of a
   * non-empty table has no value at all; otherwise it keeps the row count,
   * the column names and kinds, every present cell and every complete
   * column, and leaves no missing cell in a column that had a value.
   */
  lemma ImputeTableSpec(t: Table)
    requires Valid(t)
    ensures ImputeTable(t).Failure? <==>
      || !DistinctNames(t.columns)
      || exists j :: 0 <= j < |t.columns| && t.columns[j].kind == Categorical
           && t.rows > 0 && AllMissing(t.columns[j].cells)
    ensures ImputeTable(t).Success? ==>
      var u := ImputeTable(t).value;
      && Valid(u)
      && u.rows == t.rows
      && |u.columns| == |t.columns|
      && (forall j :: 0 <= j < |t.columns| ==>
            && u.columns[j].name == t.columns[j].name
            && u.columns[j].kind == t.columns[j].kind
            && (forall i :: 0 <= i < t.rows && t.columns[j].cells[i].Some? ==>
                  u.columns[j].cells[i] == t.columns[j].cells[i])
            && (MissingCount(t.columns[j].cells) == 0 ==> u.columns[j] == t.columns[j])
            && (!AllMissing(t.columns[j].cells) ==> MissingCount(u.columns[j].cells) == 0))
  {
    ImputeColumnsPointwise(t.columns);
    DistinctNamesIff(t.columns);
    forall j | 0 <= j < |t.columns|
      ensures ImputeColumn(t.columns[j]).Failure? <==>
        t.columns[j].kind == Categorical && t.rows > 0 && AllMissing(t.columns[j].cells)
    {
      ImputeColumnFails(t.columns[j]);
    }
    if ImputeTable(t).Success? {
      forall j | 0 <= j < |t.columns|
        ensures var d := ImputeColumn(t.columns[j]).value;
          && d.name == t.columns[j].name && d.kind == t.columns[j].kind
          && |d.cells| == t.rows && WellTyped(d)
          && (forall i :: 0 <= i < t.rows && t.columns[j].cells[i].Some? ==> d.cells[i] == t.columns[j].cells[i])
          && (MissingCount(t.columns[j].cells) == 0 ==> d == t.columns[j])
          && (!AllMissing(t.columns[j].cells) ==> MissingCount(d.cells) == 0)
      {
        ImputeColumnKeeps(t.columns[j]);
        if !AllMissing(t.columns[j].cells) {
          ImputeColumnFills(t.columns[j]);
        }
      }
    }
  }

  /** A table that imputes carries each column label once, so a lookup by name is unambiguous. */
  lemma ImputedNamesDistinct(t: Table)
    requires ImputeTable(t).Success?
    ensures DistinctNames(t.columns)
    ensures DistinctNames(ImputeTable(t).value.columns)
  {
    var u := ImputeTable(t).value;
    assert forall j :: 0 <= j < |u.columns| ==> u.columns[j].name == t.columns[j].name;
  }

  /** Two columns labelled "a": the loop raises at the first of them, although nothing else would fail. */
  lemma RepeatedLabelRaises()
    ensures ImputeTable(Table(1, [Column("a", Numeric, [Some(Num(1.0))]), Column("a", Numeric, [None])]))
      == Failure(AmbiguousColumn("a"))
  {
    var cs := [Column("a", Numeric, [Some(Num(1.0))]), Column("a", Numeric, [None])];
    assert Names(cs) == ["a", "a"];
    assert Repeated(Names(cs), cs[0].name);
    ImputeColumnsRaise(cs);
  }

  /** One cell after imputation: a present cell is kept, and a cell of a column that had a value is filled. */
  lemma ImputedCell(t: Table, j: nat, i: nat)
    requires Valid(t) && ImputeTable(t).Success?
    requires j < |t.columns| && i < t.rows
    ensures t.columns[j].cells[i].Some? ==> ImputeTable(t).value.columns[j].cells[i] == t.columns[j].cells[i]
    ensures !AllMissing(t.columns[j].cells) ==> ImputeTable(t).value.columns[j].cells[i].Some?
  {
    ImputeColumnsPointwise(t.columns);
    ImputeColumnKeeps(t.columns[j]);
    if !AllMissing(t.columns[j].cells) {
      ImputeColumnFills(t.columns[j]);
    }
  }

  // ---------------------------------------------------------------------
  // Row selection by detector labels

  /** An Isolation Forest label: 1 for an inlier, -1 for an outlier. */
  type Label = l: int | l == 1 || l == -1 witness 1

  const Inlier: Label := 1
  const Outlier: Label := -1

  /** How many labels equal l. */
  function CountLabel(labels: seq<Label>, l: Label): (n: nat)
    ensures n <= |labels|
  {
    if labels == [] then 0
    else
      CountLabel(labels[..|labels| - 1], l) + (if labels[|labels| - 1] == l then 1 else 0)
  }

  /** CountLabel is the multiplicity of l among the labels. */
  lemma {:induction false} CountLabelMultiplicity(labels: seq<Label>, l: Label)
    ensures CountLabel(labels, l) == multiset(labels)[l]
    decreases |labels|
  {
    if labels != [] {
      CountLabelMultiplicity(labels[..|labels| - 1], l);
      assert labels == labels[..|labels| - 1] + [labels[|labels| - 1]];
    }
  }

  /** With two possible labels, inliers and outliers together are all the rows. */
  lemma {:induction false} CountsPartition(labels: seq<Label>)
    ensures CountLabel(labels, Inlier) + CountLabel(labels, Outlier) == |labels|
    decreases |labels|
  {
    if labels != [] {
      CountsPartition(labels[..|labels| - 1]);
    }
  }

  /** The row numbers whose label is l, in increasing order: the True positions of `labels == l`. */
  function Positions(labels: seq<Label>, l: Label): (ps: seq<nat>)
    ensures |ps| == CountLabel(labels, l)
    ensures forall k :: 0 <= k < |ps| ==> ps[k] < |labels| && labels[ps[k]] == l
    ensures forall k1, k2 :: 0 <= k1 < k2 < |ps| ==> ps[k1] < ps[k2]
    ensures forall i :: 0 <= i < |labels| && labels[i] == l ==> i in ps
    decreases |labels|
  {
    if labels == [] then []
    else
      var n := |labels| - 1;
      var front := Positions(labels[..n], l);
      assert forall i :: 0 <= i < n ==> labels[..n][i] == labels[i];
      assert forall k :: 0 <= k < |front| ==> front[k] < n;
      if labels[n] != l then front
      else
        var ps := front + [n];
        assert forall k :: 0 <= k < |front| ==> ps[k] == front[k];
        ps
  }

  /** A boolean-mask selection of one column's cells. */
  function Pick<T>(s: seq<T>, labels: seq<Label>, l: Label): (r: seq<T>)
    requires |s| == |labels|
    ensures |r| == |Positions(labels, l)|
    ensures forall k :: 0 <= k < |r| ==> r[k] == s[Positions(labels, l)[k]]
    decreases |s|
  {
    if s == [] then []
    else
      var n := |s| - 1;
      PositionsLast(labels, l);
      assert forall i :: 0 <= i < n ==> s[..n][i] == s[i];
      Pick(s[..n], labels[..n], l) + (if labels[n] == l then [s[n]] else [])
  }

  /** Positions grows at the end exactly when the last label is l. */
  lemma PositionsLast(labels: seq<Label>, l: Label)
    requires labels != []
    ensures var n := |labels| - 1;
      Positions(labels, l) ==
        Positions(labels[..n], l) + (if labels[n] == l then [n] else [])
  {
  }

  /** df[outlier_labels == l]: the rows labelled l, whole and in order. */
  function RowsLabelled(t: Table, labels: seq<Label>, l: Label): (r: Table)
    requires Valid(t) && |labels| == t.rows
    ensures Valid(r)
    ensures r.rows == CountLabel(labels, l)
    ensures |r.columns| == |t.columns|
    ensures forall j :: 0 <= j < |t.columns| ==>
      r.columns[j].name == t.columns[j].name && r.columns[j].kind == t.columns[j].kind
  {
    var cols := seq(|t.columns|, j requires 0 <= j < |t.columns| =>
      t.columns[j].(cells := Pick(t.columns[j].cells, labels, l)));
    assert forall j :: 0 <= j < |cols| ==> WellTyped(cols[j]) by {
      forall j | 0 <= j < |cols| ensures WellTyped(cols[j]) {
        var c := t.columns[j];
        assert WellTyped(c);
        var ps := Positions(labels, l);
        forall k | 0 <= k < |cols[j].cells| && cols[j].cells[k].Some?
          ensures (cols[j].kind == Numeric <==> cols[j].cells[k].value.Num?)
        {
          assert cols[j].cells[k] == c.cells[ps[k]];
        }
      }
    }
    Table(CountLabel(labels, l), cols)
  }

  /**
   * Keeping the inliers keeps exactly the rows labelled 1, in their original
   * order, each one whole and unmodified; n minus the outliers remain.
   */
  lemma KeepsExactlyInliers(t: Table, labels: seq<Label>)
    requires Valid(t) && |labels| == t.rows
    ensures var kept := RowsLabelled(t, labels, Inlier);
      var ps := Positions(labels, Inlier);
      && kept.rows == t.rows - CountLabel(labels, Outlier)
      && |ps| == kept.rows
      && (forall k :: 0 <= k < kept.rows ==> ps[k] < t.rows && RowAt(kept, k) == RowAt(t, ps[k]))
      && (forall k1, k2 :: 0 <= k1 < k2 < kept.rows ==> ps[k1] < ps[k2])
      && (forall i :: 0 <= i < t.rows ==> (labels[i] == Inlier <==> i in ps))
  {
    CountsPartition(labels);
    var kept := RowsLabelled(t, labels, Inlier);
    var ps := Positions(labels, Inlier);
    forall k | 0 <= k < kept.rows ensures RowAt(kept, k) == RowAt(t, ps[k]) {
      forall j | 0 <= j < |t.columns| ensures kept.columns[j].cells[k] == t.columns[j].cells[ps[k]] {
        assert kept.columns[j].cells == Pick(t.columns[j].cells, labels, Inlier);
      }
    }
  }

  /** One cell of the filtered table: row k of the result is row Positions[k] of the input. */
  lemma KeptCell(t: Table, labels: seq<Label>, k: nat, j: nat)
    requires Valid(t) && |labels| == t.rows
    requires k < RowsLabelled(t, labels, Inlier).rows && j < |t.columns|
    ensures Positions(labels, Inlier)[k] < t.rows
    ensures RowsLabelled(t, labels, Inlier).columns[j].cells[k] ==
      t.columns[j].cells[Positions(labels, Inlier)[k]]
  {
    assert RowsLabelled(t, labels, Inlier).columns[j].cells == Pick(t.columns[j].cells, labels, Inlier);
  }

  /** len(df[outlier_labels == -1]): the count that is logged. */
  function OutliersCount(t: Table, labels: seq<Label>): (n: nat)
    requires Valid(t) && |labels| == t.rows
    ensures n == CountLabel(labels, Outlier)
    ensures n + RowsLabelled(t, labels, Inlier).rows == t.rows
  {
    CountsPartition(labels);
    RowsLabelled(t, labels, Outlier).rows
  }

  // ---------------------------------------------------------------------
  // remove_outliers_isolation_forest

  /** The opaque Isolation Forest: fit_predict on the selected columns with a contamination rate. */
  type Detector = (Table, real) -> Option<seq<Label>>

  /** The first column with the given name. */
  function FindColumn(cs: seq<Column>, name: string): (r: Option<Column>)
    ensures r.Some? ==> r.value in cs && r.value.name == name
    ensures r.None? <==> forall j :: 0 <= j < |cs| ==> cs[j].name != name
  {
    if cs == [] then None
    else if cs[0].name == name then Some(cs[0])
    else
      assert forall j :: 1 <= j < |cs| ==> cs[j] == cs[1..][j - 1];
      FindColumn(cs[1..], name)
  }

  /** FindColumn returns the first column of that name: no earlier column carries it. */
  lemma {:induction false} FindColumnFirst(cs: seq<Column>, name: string)
    requires FindColumn(cs, name).Some?
    ensures exists j ::
      && 0 <= j < |cs| && FindColumn(cs, name).value == cs[j]
      && forall k :: 0 <= k < j ==> cs[k].name != name
    decreases |cs|
  {
    if cs[0].name != name {
      var rest := cs[1..];
      FindColumnFirst(rest, name);
      var j :| 0 <= j < |rest| && FindColumn(rest, name).value == rest[j]
        && forall k :: 0 <= k < j ==> rest[k].name != name;
      assert forall k :: 1 <= k <= j ==> cs[k] == rest[k - 1];
      assert FindColumn(cs, name).value == cs[j + 1];
    } else {
      assert FindColumn(cs, name).value == cs[0];
    }
  }

  /** With distinct labels the column found is the only one of that name, as pandas would select. */
  lemma FindColumnOnly(cs: seq<Column>, name: string)
    requires DistinctNames(cs) && FindColumn(cs, name).Some?
    ensures forall j :: 0 <= j < |cs| && cs[j].name == name ==> cs[j] == FindColumn(cs, name).value
  {
    FindColumnFirst(cs, name);
  }

  /** df[columns]: the named columns in the order asked for; a name the table lacks raises. */
  function SelectColumns(t: Table, names: seq<string>): (r: Result<Table, CleanError>)
    ensures r.Success? ==>
      && (Valid(t) ==> Valid(r.value)) && r.value.rows == t.rows && |r.value.columns| == |names|
      && forall k :: 0 <= k < |names| ==>
           r.value.columns[k].name == names[k] && r.value.columns[k] in t.columns
  {
    if names == [] then Success(Table(t.rows, []))
    else
      assert forall k :: 1 <= k < |names| ==> names[k] == names[1..][k - 1];
      match FindColumn(t.columns, names[0])
      case None => Failure(MissingColumn(names[0]))
      case Some(c) =>
        match SelectColumns(t, names[1..])
        case Failure(e) => Failure(e)
        case Success(rest) =>
          var cols := [c] + rest.columns;
          assert forall k :: 1 <= k < |cols| ==> cols[k] == rest.columns[k - 1];
          Success(Table(t.rows, cols))
  }

  /** The selection raises exactly when a name is missing, and then names a missing column. */
  lemma {:induction false} SelectColumnsFails(t: Table, names: seq<string>)
    ensures SelectColumns(t, names).Success? <==>
      forall k :: 0 <= k < |names| ==> FindColumn(t.columns, names[k]).Some?
    ensures SelectColumns(t, names).Failure? ==>
      exists k :: 0 <= k < |names| && SelectColumns(t, names).error == MissingColumn(names[k])
        && FindColumn(t.columns, names[k]).None?
  {
    if names != [] {
      SelectColumnsFails(t, names[1..]);
      assert forall k :: 1 <= k < |names| ==> names[k] == names[1..][k - 1];
      if FindColumn(t.columns, names[0]).Some? && SelectColumns(t, names[1..]).Failure? {
        var k :| 0 <= k < |names[1..]| && SelectColumns(t, names[1..]).error == MissingColumn(names[1..][k])
          && FindColumn(t.columns, names[1..][k]).None?;
        assert names[k + 1] == names[1..][k];
      }
    }
  }

  /** Selecting one present name gives a one-column table holding the first column of that name. */
  lemma SelectOne(t: Table, name: string)
    requires FindColumn(t.columns, name).Some?
    ensures SelectColumns(t, [name]) == Success(Table(t.rows, [FindColumn(t.columns, name).value]))
  {
    var c := FindColumn(t.columns, name).value;
    assert [name][0] == name && [name][1..] == [];
    assert SelectColumns(t, []) == Success(Table(t.rows, []));
    assert [c] + [] == [c];
  }

  /**
   * Runs the detector on the selected columns and keeps the rows it labels 1.
   * The function's failures are the selection's KeyError, the detector's own
   * refusal and pandas' refusal of a mask of the wrong length.
   */
  function RemoveOutliersIsolationForest(df: Table, columns: seq<string>, contamination: real,
                                         detector: Detector): (r: Result<Table, CleanError>)
    requires Valid(df)
    ensures r.Success? <==>
      && SelectColumns(df, columns).Success?
      && detector(SelectColumns(df, columns).value, contamination).Some?
      && |detector(SelectColumns(df, columns).value, contamination).value| == df.rows
    ensures r.Success? ==>
      var labels := detector(SelectColumns(df, columns).value, contamination).value;
      && Valid(r.value)
      && r.value.rows == df.rows - OutliersCount(df, labels)
      && r.value == RowsLabelled(df, labels, Inlier)
  {
    match SelectColumns(df, columns)
    case Failure(e) => Failure(e)
    case Success(x) =>
      match detector(x, contamination)
      case None => Failure(DetectorRejected)
      case Some(labels) =>
        if |labels| != df.rows then Failure(MaskLengthMismatch)
        else Success(RowsLabelled(df, labels, Inlier))
  }

  // ---------------------------------------------------------------------
  // clean_data

  /** clean_data screens the 'price' column only, at a 5% contamination rate. */
  const TargetColumns: seq<string> := ["price"]
  const CleaningContamination: real := 0.05

  /** What clean_data computes: imputation first, then outlier removal on the imputed table. */
  function CleanSpec(df: Table, detector: Detector): (r: Result<Table, CleanError>)
    requires Valid(df)
    ensures r.Success? ==>
      && ImputeTable(df).Success?
      && Valid(r.value) && r.value.rows <= df.rows && |r.value.columns| == |df.columns|
    ensures r.Failure? && r.error.MissingColumn? ==> r.error.column == "price"
  {
    match ImputeTable(df)
    case Failure(e) => Failure(e)
    case Success(imputed) =>
      SelectColumnsFails(imputed, TargetColumns);
      RemoveOutliersIsolationForest(imputed, TargetColumns, CleaningContamination, detector)
  }

  /**
   * The body of clean_data's loop for one column of a frame labelled names:
   * a label two columns share makes the missing count a Series, whose truth
   * value raises; otherwise count the missing cells and, if there are any,
   * fill them with the median (numeric column) or the first mode (any
   * other column).
   */
  method FillColumn(names: seq<string>, column: Column) returns (r: Result<Column, CleanError>)
    ensures r == ImputeColumnIn(names, column)
  {
    var selected := multiset(names)[column.name];
    if selected > 1 {
      return Failure(AmbiguousColumn(column.name));
    }
    var missingCount := MissingCount(column.cells);
    if missingCount == 0 {
      return Success(column);
    }
    if column.kind == Numeric {
      var present := NumbersOf(column.cells);
      if |present| == 0 {
        return Success(column);
      }
      var median := Stats.Median(present);
      r := Success(column.(cells := FillMissing(column.cells, Num(median))));
    } else {
      var present := StringsOf(column.cells);
      if |present| == 0 {
        return Failure(NoModeForEmptyColumn(column.name));
      }
      var mode := Stats.Mode(present);
      r := Success(column.(cells := FillMissing(column.cells, Str(mode))));
    }
  }

  /** Once every column is imputed, clean_data's result is the outlier filter on the imputed table. */
  lemma ImputedThenFiltered(df: Table, cleaned: seq<Column>, detector: Detector)
    requires Valid(df)
    requires ImputeColumns(df.columns) == Success(cleaned)
    ensures Valid(Table(df.rows, cleaned))
    ensures CleanSpec(df, detector) ==
      RemoveOutliersIsolationForest(Table(df.rows, cleaned), TargetColumns, CleaningContamination, detector)
  {
    assert ImputeTable(df) == Success(Table(df.rows, cleaned));
  }

  /**
   * clean_data's loop over the columns of its copy of df: each column with
   * missing cells is replaced in place by its filled version; the first
   * column that cannot be filled raises.
   */
  method FillColumns(columns: seq<Column>) returns (r: Result<seq<Column>, CleanError>)
    ensures r == ImputeColumns(columns)
  {
    var cleaned := columns;
    var names := Names(columns);
    for i := 0 to |cleaned|
      invariant |cleaned| == |columns|
      invariant MapUntilFailure(ImputeIn(names), columns[..i]) == Success(cleaned[..i])
      invariant forall k :: i <= k < |cleaned| ==> cleaned[k] == columns[k]
    {
      var filled := FillColumn(names, cleaned[i]);
      ImputeInApply(names, columns[i]);
      MapUntilFailureStep(ImputeIn(names), columns, i);
      if filled.Failure? {
        MapUntilFailurePrefix(ImputeIn(names), columns, i + 1);
        assert columns[..|columns|] == columns;
        return Failure(filled.error);
      }
      ghost var before := cleaned;
      cleaned := cleaned[i := filled.value];
      assert cleaned[..i + 1] == before[..i] + [filled.value];
    }
    assert columns[..|columns|] == columns;
    assert cleaned[..|cleaned|] == cleaned;
    r := Success(cleaned);
  }

  /**
   * clean_data: the column loop on a copy of df, then the outlier filter on
   * the price column. The table is a value, so the caller's df is never
   * changed.
   */
  method CleanData(df: Table, detector: Detector) returns (r: Result<Table, CleanError>)
    requires Valid(df)
    ensures r == CleanSpec(df, detector)
  {
    var filled := FillColumns(df.columns);
    match filled
    case Failure(e) =>
      r := Failure(e);
    case Success(cleaned) =>
      ImputedThenFiltered(df, cleaned, detector);
      r := RemoveOutliersIsolationForest(Table(df.rows, cleaned), TargetColumns, CleaningContamination, detector);
  }

  // ---------------------------------------------------------------------
  // Properties of clean_data

  /**
   * Row k of out is row ps[k] of df, the positions ps increase, and every
   * cell present in one of those input rows is unchanged in out.
   */
  predicate RowsFrom(out: Table, df: Table, ps: seq<nat>) {
    && Valid(out) && Valid(df)
    && |out.columns| == |df.columns|
    && |ps| == out.rows
    && (forall k1, k2 :: 0 <= k1 < k2 < |ps| ==> ps[k1] < ps[k2])
    && (forall k :: 0 <= k < |ps| ==> ps[k] < df.rows)
    && (forall k, j :: 0 <= k < |ps| && 0 <= j < |df.columns| && df.columns[j].cells[ps[k]].Some? ==>
          out.columns[j].cells[k] == df.columns[j].cells[ps[k]])
  }

  /** The labels the detector returned during a successful clean. */
  function CleanLabels(df: Table, detector: Detector): (labels: seq<Label>)
    requires Valid(df) && CleanSpec(df, detector).Success?
    ensures ImputeTable(df).Success? && |labels| == df.rows
    ensures CleanSpec(df, detector).value == RowsLabelled(ImputeTable(df).value, labels, Inlier)
  {
    detector(SelectColumns(ImputeTable(df).value, TargetColumns).value, CleaningContamination).value
  }

  /**
   * A successful clean is a well-formed table with no more rows than the
   * input; it keeps every column's name and kind, and leaves no missing
   * cell in a column that had a value.
   */
  lemma CleanedColumns(df: Table, detector: Detector)
    requires Valid(df)
    requires CleanSpec(df, detector).Success?
    ensures var out := CleanSpec(df, detector).value;
      && Valid(out)
      && out.rows <= df.rows
      && |out.columns| == |df.columns|
    ensures var out := CleanSpec(df, detector).value;
      forall j :: 0 <= j < |df.columns| ==>
        && out.columns[j].name == df.columns[j].name
        && out.columns[j].kind == df.columns[j].kind
        && (!AllMissing(df.columns[j].cells) ==> MissingCount(out.columns[j].cells) == 0)
  {
    var imputed := ImputeTable(df).value;
    var labels := CleanLabels(df, detector);
    var out := CleanSpec(df, detector).value;
    var ps := Positions(labels, Inlier);
    ImputeColumnsPointwise(df.columns);
    forall j | 0 <= j < |df.columns|
      ensures out.columns[j].name == df.columns[j].name && out.columns[j].kind == df.columns[j].kind
    {
      ImputeColumnKeeps(df.columns[j]);
    }
    forall j | 0 <= j < |df.columns| && !AllMissing(df.columns[j].cells)
      ensures MissingCount(out.columns[j].cells) == 0
    {
      forall k | 0 <= k < out.rows ensures out.columns[j].cells[k].Some? {
        KeptCell(imputed, labels, k, j);
        ImputedCell(df, j, ps[k]);
      }
    }
  }

  /**
   * The rows of a successful clean are the input rows the detector labelled
   * 1, in their order, with every present input cell unchanged.
   */
  lemma CleanedRows(df: Table, detector: Detector)
    requires Valid(df)
    requires CleanSpec(df, detector).Success?
    ensures RowsFrom(CleanSpec(df, detector).value, df, Positions(CleanLabels(df, detector), Inlier))
  {
    var imputed := ImputeTable(df).value;
    var labels := CleanLabels(df, detector);
    var out := CleanSpec(df, detector).value;
    var ps := Positions(labels, Inlier);
    assert |ps| == out.rows && forall k :: 0 <= k < |ps| ==> ps[k] < df.rows;
    forall k, j | 0 <= k < |ps| && 0 <= j < |df.columns| && df.columns[j].cells[ps[k]].Some?
      ensures out.columns[j].cells[k] == df.columns[j].cells[ps[k]]
    {
      KeptCell(imputed, labels, k, j);
      ImputedCell(df, j, ps[k]);
    }
  }

  /**
   * A successful clean keeps the columns (names and kinds), keeps only
   * rows of the input in their order, keeps every present cell of those
   * rows, and leaves no missing cell in any column that had a value.
   */
  lemma CleanedTable(df: Table, detector: Detector)
    requires Valid(df)
    requires CleanSpec(df, detector).Success?
    ensures var out := CleanSpec(df, detector).value;
      && Valid(out)
      && out.rows <= df.rows
      && |out.columns| == |df.columns|
      && (forall j :: 0 <= j < |df.columns| ==>
            && out.columns[j].name == df.columns[j].name
            && out.columns[j].kind == df.columns[j].kind
            && (!AllMissing(df.columns[j].cells) ==> MissingCount(out.columns[j].cells) == 0))
      && exists ps :: RowsFrom(out, df, ps)
  {
    CleanedColumns(df, detector);
    CleanedRows(df, detector);
  }

  /** Without a 'price' column, a clean that gets past imputation fails with the selection's KeyError. */
  lemma CleanNeedsPrice(df: Table, detector: Detector)
    requires Valid(df)
    requires ImputeTable(df).Success?
    requires forall j :: 0 <= j < |df.columns| ==> df.columns[j].name != "price"
    ensures CleanSpec(df, detector) == Failure(MissingColumn("price"))
  {
    ImputeTableSpec(df);
    var imputed := ImputeTable(df).value;
    assert FindColumn(imputed.columns, "price").None?;
  }

  /**
   * The detector is run once, after imputation, on the imputed 'price'
   * column alone, at contamination 0.05; when 'price' had any value, it sees
   * no missing price.
   */
  lemma DetectorSeesImputedPrice(df: Table, detector: Detector)
    requires Valid(df)
    requires ImputeTable(df).Success?
    requires FindColumn(df.columns, "price").Some?
    ensures var imputed := ImputeTable(df).value;
      var x := SelectColumns(imputed, TargetColumns);
      && x.Success?
      && x.value.rows == df.rows
      && |x.value.columns| == 1
      && x.value.columns[0].name == "price"
      && x.value.columns[0] in imputed.columns
      && (!AllMissing(FindColumn(df.columns, "price").value.cells) ==>
            MissingCount(x.value.columns[0].cells) == 0)
      && (CleanSpec(df, detector).Success? ==>
            CleanSpec(df, detector).value ==
              RowsLabelled(imputed, detector(x.value, 0.05).value, Inlier))
  {
    var imputed := ImputeTable(df).value;
    ImputeColumnsPointwise(df.columns);
    forall j | 0 <= j < |df.columns| ensures imputed.columns[j].name == df.columns[j].name {
      ImputeColumnKeeps(df.columns[j]);
    }
    FirstColumnFound(df.columns, imputed.columns, "price");
    var j :| 0 <= j < |df.columns| && FindColumn(df.columns, "price") == Some(df.columns[j])
      && FindColumn(imputed.columns, "price") == Some(imputed.columns[j]);
    ImputeColumnKeeps(df.columns[j]);
    if !AllMissing(df.columns[j].cells) {
      ImputeColumnFills(df.columns[j]);
    }
    SelectOne(imputed, "price");
  }

  /** FindColumn picks the same position in two column lists with the same names. */
  lemma {:induction false} FirstColumnFound(a: seq<Column>, b: seq<Column>, name: string)
    requires |a| == |b|
    requires forall j :: 0 <= j < |a| ==> a[j].name == b[j].name
    requires FindColumn(a, name).Some?
    ensures exists j :: 0 <= j < |a| && FindColumn(a, name) == Some(a[j]) && FindColumn(b, name) == Some(b[j])
    decreases |a|
  {
    if a[0].name != name {
      FirstColumnFound(a[1..], b[1..], name);
      var j :| 0 <= j < |a[1..]| && FindColumn(a[1..], name) == Some(a[1..][j]) && FindColumn(b[1..], name) == Some(b[1..][j]);
      assert a[1..][j] == a[j + 1] && b[1..][j] == b[j + 1];
    }
  }
}
