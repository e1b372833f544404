/** The `Demographics` pipeline around the reshaping steps: the SELECT list that reads
    `"base"."part"…."year"` out of the nested parquet columns, the query guard, the frame
    checks of `validate_data`, `eda_demo` as a method that runs the steps one after the other
    (the imputation as a loop over the category columns), and `upload_to_postgres` with its
    incremental (state, year) filter. The parquet engine is a parameter: a function from the
    SELECT list to the frame it returns, or `None` when the query raised. */
module Demographics {
  import opened Wrappers
  import opened Text
  import opened Seqs
  import opened DemographicsFlatten
  import opened Postgres

  // ---------------------------------------------------------------------------
  // The SELECT list of `build_select_clause`

  function Quoted(part: string): string {
    "\"" + part + "\""
  }

  /** `."part"` for each nested part, in order. */
  function NestedPath(parts: seq<string>): string {
    if |parts| == 0 then "" else NestedPath(parts[..|parts| - 1]) + "." + Quoted(parts[|parts| - 1])
  }

  /** The quoted access path of `field` in `year`: the base column, each nested part, the year. */
  function AccessPath(field: string, year: int): string {
    var parts := Split(field, '.');
    Quoted(parts[0]) + NestedPath(parts[1..]) + "." + Quoted(IntToString(year))
  }

  /** One entry of the list: the access path under the alias `field.year`. */
  function SelectItem(field: string, year: int): string {
    AccessPath(field, year) + " AS " + Quoted(Alias(field, year))
  }

  /** The entries of one field, one per year, in the order of `years`. */
  function YearItems(field: string, years: seq<int>): seq<string> {
    if |years| == 0 then [] else YearItems(field, years[..|years| - 1]) + [SelectItem(field, years[|years| - 1])]
  }

  /** The entries of all fields, field by field. */
  function FieldItems(fields: seq<string>, years: seq<int>): seq<string> {
    if |fields| == 0 then [] else FieldItems(fields[..|fields| - 1], years) + YearItems(fields[|fields| - 1], years)
  }

  const IdColumns: seq<string> := ["state", "county"]

  function SelectClause(fields: seq<string>, years: seq<int>): seq<string> {
    IdColumns + FieldItems(fields, years)
  }

  lemma NestedPathStep(nested: seq<string>, k: int)
    requires 0 <= k < |nested|
    ensures NestedPath(nested[..k + 1]) == NestedPath(nested[..k]) + "." + Quoted(nested[k])
  {
    assert nested[..k + 1][..k] == nested[..k];
  }

  lemma YearItemsStep(field: string, years: seq<int>, j: int)
    requires 0 <= j < |years|
    ensures YearItems(field, years[..j + 1]) == YearItems(field, years[..j]) + [SelectItem(field, years[j])]
  {
    assert years[..j + 1][..j] == years[..j];
  }

  lemma FieldItemsStep(fields: seq<string>, years: seq<int>, i: int)
    requires 0 <= i < |fields|
    ensures FieldItems(fields[..i + 1], years) == FieldItems(fields[..i], years) + YearItems(fields[i], years)
  {
    assert fields[..i + 1][..i] == fields[..i];
  }

  lemma SelectClauseStep(fields: seq<string>, years: seq<int>, i: int)
    requires 0 <= i < |fields|
    ensures SelectClause(fields[..i + 1], years) == SelectClause(fields[..i], years) + YearItems(fields[i], years)
  {
    FieldItemsStep(fields, years, i);
  }

  /** The innermost loop of `build_select_clause`: the quoted base column, then each nested part,
      then the year. */
  method BuildAccessPath(field: string, year: int) returns (access: string)
    ensures access == AccessPath(field, year)
  {
    var parts := Split(field, '.');
    var nested := parts[1..];
    access := Quoted(parts[0]);
    var k := 0;
    while k < |nested|
      invariant 0 <= k <= |nested|
      invariant access == Quoted(parts[0]) + NestedPath(nested[..k])
    {
      NestedPathStep(nested, k);
      access := access + "." + Quoted(nested[k]);
      k := k + 1;
    }
    assert nested[..k] == nested;
    access := access + "." + Quoted(IntToString(year));
  }

  /** The loop over the years of one field in `build_select_clause`: one entry per year appended. */
  method AppendYearItems(clause: seq<string>, field: string, years: seq<int>) returns (extended: seq<string>)
    ensures extended == clause + YearItems(field, years)
  {
    extended := clause;
    var j := 0;
    while j < |years|
      invariant 0 <= j <= |years|
      invariant extended == clause + YearItems(field, years[..j])
    {
      var access := BuildAccessPath(field, years[j]);
      YearItemsStep(field, years, j);
      extended := extended + [access + " AS " + Quoted(Alias(field, years[j]))];
      j := j + 1;
    }
    assert years[..j] == years;
  }

  /** `build_select_clause`: the two id columns, then for each field and each year of it the
      access path built part by part. */
  method BuildSelectClause(fields: seq<string>, years: seq<int>) returns (clause: seq<string>)
    ensures clause == SelectClause(fields, years)
  {
    clause := IdColumns;
    var i := 0;
    while i < |fields|
      invariant 0 <= i <= |fields|
      invariant clause == SelectClause(fields[..i], years)
    {
      clause := AppendYearItems(clause, fields[i], years);
      SelectClauseStep(fields, years, i);
      i := i + 1;
    }
    assert fields[..i] == fields;
  }

  lemma MulMonotone(a: nat, b: nat, m: nat)
    requires a <= b
    ensures a * m <= b * m
  {
  }

  /** Where entry (i, j) falls: in the first `n` rows of `m` entries, or at `j` in row `n`. */
  lemma RowMajorIndex(i: nat, j: nat, n: nat, m: nat)
    requires i <= n && j < m
    ensures i < n ==> i * m + j < n * m
    ensures i == n ==> i * m + j == n * m + j
    ensures n * m + m == (n + 1) * m
  {
    if i < n {
      MulMonotone(i + 1, n, m);
      assert (i + 1) * m == i * m + m;
    }
  }

  lemma {:induction false} YearItemsLayout(field: string, years: seq<int>)
    ensures |YearItems(field, years)| == |years|
    ensures forall j :: 0 <= j < |years| ==> YearItems(field, years)[j] == SelectItem(field, years[j])
  {
    if |years| > 0 {
      YearItemsLayout(field, years[..|years| - 1]);
    }
  }

  predicate ItemAt(items: seq<string>, fields: seq<string>, years: seq<int>, i: int, j: int)
    requires 0 <= i < |fields| && 0 <= j < |years|
  {
    i * |years| + j < |items| && items[i * |years| + j] == SelectItem(fields[i], years[j])
  }

  /** Appending the entries of one more field keeps the field-major layout. */
  lemma ItemsAppendField(front: seq<string>, last: seq<string>, init: seq<string>, field: string, years: seq<int>)
    requires |front| == |init| * |years| && |last| == |years|
    requires forall i, j :: 0 <= i < |init| && 0 <= j < |years| ==> ItemAt(front, init, years, i, j)
    requires forall j :: 0 <= j < |years| ==> last[j] == SelectItem(field, years[j])
    ensures |front + last| == |init + [field]| * |years|
    ensures forall i, j :: 0 <= i < |init + [field]| && 0 <= j < |years| ==> ItemAt(front + last, init + [field], years, i, j)
  {
    var n := |init|;
    var m := |years|;
    var fields := init + [field];
    var items := front + last;
    RowMajorIndex(n, 0, n, m + 1);
    assert (n + 1) * m == n * m + m;
    forall i, j | 0 <= i < |fields| && 0 <= j < m
      ensures ItemAt(items, fields, years, i, j)
    {
      RowMajorIndex(i, j, n, m);
      if i < n {
        assert ItemAt(front, init, years, i, j);
        assert items[i * m + j] == front[i * m + j];
      } else {
        assert items[i * m + j] == last[j];
      }
    }
  }

  /** The entries are exactly `|fields| * |years|`, field-major: entry `i * |years| + j` reads
      field `i` in year `j`. */
  lemma {:induction false} FieldItemsLayout(fields: seq<string>, years: seq<int>)
    ensures |FieldItems(fields, years)| == |fields| * |years|
    ensures forall i, j :: 0 <= i < |fields| && 0 <= j < |years| ==> ItemAt(FieldItems(fields, years), fields, years, i, j)
  {
    if |fields| > 0 {
      var n := |fields| - 1;
      FieldItemsLayout(fields[..n], years);
      YearItemsLayout(fields[n], years);
      assert fields == fields[..n] + [fields[n]];
      ItemsAppendField(FieldItems(fields[..n], years), YearItems(fields[n], years), fields[..n], fields[n], years);
    }
  }

  /** The list holds the two id columns and then exactly `|fields| * |years|` entries, field-major:
      entry `2 + i * |years| + j` reads field `i` in year `j`. */
  lemma SelectClauseLayout(fields: seq<string>, years: seq<int>)
    ensures |SelectClause(fields, years)| == 2 + |fields| * |years|
    ensures SelectClause(fields, years)[..2] == IdColumns
    ensures forall i, j :: 0 <= i < |fields| && 0 <= j < |years| ==> ItemAt(SelectClause(fields, years)[2..], fields, years, i, j)
  {
    FieldItemsLayout(fields, years);
    assert SelectClause(fields, years)[2..] == FieldItems(fields, years);
  }

  /** Each entry of the list (placed by `SelectClauseLayout`) reads the access path of its field
      and year under an alias that the reshaping step splits back into that field and year. */
  lemma SelectAliasRoundTrip(field: string, year: int)
    ensures exists alias ::
      (SplitColumn(alias) == Ok((field, year)) && SelectItem(field, year) == AccessPath(field, year) + " AS " + Quoted(alias))
  {
    SplitAlias(field, year);
    var alias := Alias(field, year);
    assert SelectItem(field, year) == AccessPath(field, year) + " AS " + Quoted(alias);
  }

  lemma {:induction false} JoinSnoc(parts: seq<string>, last: string)
    requires |parts| > 0
    ensures Join(parts + [last], '.') == Join(parts, '.') + "." + last
  {
    if |parts| > 1 {
      assert (parts + [last])[1..] == parts[1..] + [last];
      JoinSnoc(parts[1..], last);
    } else {
      assert (parts + [last])[1..] == [last];
    }
  }

  lemma {:induction false} NestedPathJoin(base: string, nested: seq<string>)
    ensures Quoted(base) + NestedPath(nested) == Join(Map([base] + nested, Quoted), '.')
  {
    if |nested| > 0 {
      var n := |nested| - 1;
      NestedPathJoin(base, nested[..n]);
      var front := Map([base] + nested[..n], Quoted);
      JoinSnoc(front, Quoted(nested[n]));
      assert Map([base] + nested, Quoted) == front + [Quoted(nested[n])];
    } else {
      assert Map([base], Quoted) == [Quoted(base)];
    }
  }

  /** The quoted first part, the nested parts and a last part together are all of them,
      each quoted, joined by `.`. */
  lemma QuotedPathJoin(parts: seq<string>, last: string)
    requires |parts| > 0
    ensures Quoted(parts[0]) + NestedPath(parts[1..]) + "." + Quoted(last) == Join(Map(parts + [last], Quoted), '.')
  {
    var nested := parts[1..] + [last];
    assert nested[..|nested| - 1] == parts[1..];
    NestedPathJoin(parts[0], nested);
    assert [parts[0]] + nested == parts + [last];
  }

  /** The access path is the parts of the field and then the year, each in double quotes,
      joined by `.`; and the parts of the field joined by `.` give back the field. */
  lemma AccessPathParts(field: string, year: int)
    ensures AccessPath(field, year) == Join(Map(Split(field, '.') + [IntToString(year)], Quoted), '.')
    ensures Join(Split(field, '.'), '.') == field
  {
    SplitJoin(field, '.');
    QuotedPathJoin(Split(field, '.'), IntToString(year));
  }

  // ---------------------------------------------------------------------------
  // `query_data`

  /** `query_data`: the `ValueError` for empty fields or years; otherwise the engine's answer to the
      SELECT list, `None` standing for the query that raised. */
  method QueryData(fields: seq<string>, years: seq<int>, engine: seq<string> -> Option<Frame>)
    returns (r: Result<Option<Frame>, DemoError>)
    ensures r.Err? <==> |fields| == 0 || |years| == 0
    ensures r.Err? ==> r.error == EmptyFieldsOrYears
    ensures r.Ok? ==> r.value == engine(SelectClause(fields, years))
  {
    if |fields| == 0 || |years| == 0 {
      return Err(EmptyFieldsOrYears);
    }
    var clause := BuildSelectClause(fields, years);
    return Ok(engine(clause));
  }

  // ---------------------------------------------------------------------------
  // `validate_data`

  predicate HasIdColumns(f: Frame) {
    "state" in f.columns && "county" in f.columns
  }

  predicate NegativeAt(rows: seq<Row>, column: string, i: int) {
    0 <= i < |rows| && Cell(rows[i], column).Some? && Cell(rows[i], column).value < 0
  }

  predicate HasNegative(rows: seq<Row>, column: string) {
    exists i :: 0 <= i < |rows| && NegativeAt(rows, column, i)
  }

  /** The data columns, in order, holding some negative value: the ones `validate_data` warns about. */
  function NegativeColumns(columns: seq<string>, rows: seq<Row>): seq<string> {
    if |columns| == 0 then []
    else
      var c := columns[0];
      (if IsDataColumn(c) && HasNegative(rows, c) then [c] else []) + NegativeColumns(columns[1..], rows)
  }

  lemma {:induction false} NegativeColumnsMember(columns: seq<string>, rows: seq<Row>, c: string)
    ensures c in NegativeColumns(columns, rows) <==> c in columns && IsDataColumn(c) && HasNegative(rows, c)
  {
    if |columns| > 0 {
      NegativeColumnsMember(columns[1..], rows, c);
      assert columns == [columns[0]] + columns[1..];
    }
  }

  /** `validate_data`: `None` and missing id columns are errors, an empty frame passes; negative
      values only produce warnings, one per data column holding one. */
  function ValidateData(df: Option<Frame>): (r: Result<seq<string>, DemoError>)
    ensures df.None? ==> r == Err(NoneFrame)
    ensures df.Some? && IsEmpty(df.value) ==> r == Ok([])
    ensures df.Some? && !IsEmpty(df.value) ==> (r.Err? <==> !HasIdColumns(df.value))
    ensures r.Err? ==> r.error == NoneFrame || r.error == MissingIdColumns
    ensures df.Some? && !IsEmpty(df.value) && HasIdColumns(df.value) ==>
      r == Ok(NegativeColumns(df.value.columns, df.value.rows))
  {
    match df
    case None => Err(NoneFrame)
    case Some(f) =>
      if IsEmpty(f) then Ok([])
      else if !HasIdColumns(f) then Err(MissingIdColumns)
      else Ok(NegativeColumns(f.columns, f.rows))
  }

  // ---------------------------------------------------------------------------
  // `eda_demo`

  /** Steps 1 to 6 on a checked frame: census filter, melt, split and clean, year window, sort,
      pivot. An empty long table cannot be split: the two-column assignment of step 3 raises. */
  function Reshape(f: Frame): Result<Wide, DemoError> {
    var long := Melt(DataColumns(DropCensusColumns(f.columns)), f.rows);
    if |long| == 0 then Err(NothingToMelt)
    else
      match Entries(long)
      case Err(e) => Err(e)
      case Ok(es) => Ok(Pivot(SortEntries(FilterYears(es))))
  }

  /** On a frame with rows, the reshaping raises at step 3 exactly when no value column is left
      once the census columns are dropped: every other column mentions "census", or the frame has
      only `state` and `county`. */
  lemma NothingToMeltExactly(f: Frame)
    requires |f.rows| > 0
    ensures Reshape(f) == Err(NothingToMelt) <==> |DataColumns(DropCensusColumns(f.columns))| == 0
  {
    var data := DataColumns(DropCensusColumns(f.columns));
    MeltLength(data, f.rows);
    if |data| > 0 {
      assert |data| * |f.rows| >= |f.rows| by {
        assert |data| * |f.rows| == |f.rows| + (|data| - 1) * |f.rows|;
      }
      EntriesFailOnYear(Melt(data, f.rows));
    }
  }

  /** The conversion of a long table only ever fails on an alias whose year part is not an integer. */
  lemma EntriesFailOnYear(ls: seq<LongRow>)
    ensures Entries(ls).Err? ==> Entries(ls).error.YearNotInteger?
  {
    if Entries(ls).Err? {
      var i :| FirstErrAt(ls, ToEntry, i) && Entries(ls).error == ToEntry(ls[i]).error;
    }
  }

  /** What `eda_demo` returns, or the error it raises. */
  function EdaSpec(df: Option<Frame>): Result<DemoTable, DemoError> {
    match df
    case None => Err(NoneFrame)
    case Some(f) =>
      if IsEmpty(f) then Ok(DemoTable([], []))
      else if !HasIdColumns(f) then Err(MissingIdColumns)
      else
        match Reshape(f)
        case Err(e) => Err(e)
        case Ok(w) => Ok(DropCounty(Impute(w)))
  }

  predicate YearsInRange(t: DemoTable) {
    forall i :: 0 <= i < |t.rows| ==> YearInRange(t.rows[i].year)
  }

  /** Every category column is present and non-null in every row. */
  predicate NoNulls(t: DemoTable) {
    forall i, c :: 0 <= i < |t.rows| && c in t.categories ==> c in t.rows[i].cells && t.rows[i].cells[c].Some?
  }

  /** `eda_demo`, step by step. The result is `EdaSpec`; on success every year lies in
      [2011, 2020) and no category cell is null. */
  method EdaDemo(df: Option<Frame>) returns (r: Result<DemoTable, DemoError>)
    ensures r == EdaSpec(df)
    ensures df.None? ==> r == Err(NoneFrame)
    ensures df.Some? && IsEmpty(df.value) ==> r == Ok(DemoTable([], []))
    ensures df.Some? && !IsEmpty(df.value) && !HasIdColumns(df.value) ==> r == Err(MissingIdColumns)
    ensures r.Ok? ==> YearsInRange(r.value) && NoNulls(r.value)
  {
    if df.None? {
      return Err(NoneFrame);
    }
    var frame := df.value;
    if IsEmpty(frame) {
      return Ok(DemoTable([], []));
    }
    var checked := ValidateData(df);
    if checked.Err? {
      return Err(checked.error);
    }
    var columns := DropCensusColumns(frame.columns);
    var long := Melt(DataColumns(columns), frame.rows);
    if |long| == 0 {
      return Err(NothingToMelt);
    }
    var split := Entries(long);
    if split.Err? {
      return Err(split.error);
    }
    var entries := SortEntries(FilterYears(split.value));
    var pivoted := Pivot(entries);
    ghost var start := pivoted;
    var categories := pivoted.categories;
    var i := 0;
    while i < |categories|
      invariant 0 <= i <= |categories|
      invariant ImputeColumns(pivoted, categories[i..]) == Impute(start)
    {
      assert categories[i..][1..] == categories[i + 1..];
      pivoted := FillColumn(pivoted, categories[i]);
      i := i + 1;
    }
    assert categories[i..] == [];
    CleanedTable(split.value, entries, start);
    r := Ok(DropCounty(pivoted));
  }

  /** The table `eda_demo` builds from the entries: every year in [2011, 2020), no null left in
      a category column. */
  lemma CleanedTable(es: seq<Entry>, entries: seq<Entry>, w: Wide)
    requires entries == SortEntries(FilterYears(es)) && w == Pivot(entries)
    ensures YearsInRange(DropCounty(Impute(w))) && NoNulls(DropCounty(Impute(w)))
  {
    PivotUniqueKeys(entries);
    ImputeCells(w);
    SortedYearsInRange(es);
    PivotYearsInRange(entries);
  }

  // ---------------------------------------------------------------------------
  // `upload_to_postgres`

  function StateYear(r: DemoRow): (string, int) {
    (r.state, r.year)
  }

  /** The distinct (state, year) pairs of a table: `SELECT DISTINCT state, year`. */
  function StateYears(rows: seq<DemoRow>): set<(string, int)> {
    set i | 0 <= i < |rows| :: StateYear(rows[i])
  }

  function NotStored(existing: set<(string, int)>): DemoRow -> bool {
    r => StateYear(r) !in existing
  }

  /** The rows whose (state, year) pair is not stored yet, in their order. */
  function IncrementalFilter(rows: seq<DemoRow>, existing: set<(string, int)>): (r: seq<DemoRow>)
    ensures |r| <= |rows|
    ensures forall i :: 0 <= i < |r| ==> StateYear(r[i]) !in existing
  {
    Filter(rows, NotStored(existing))
  }

  /** The filter keeps exactly the rows whose pair is not stored, … */
  lemma IncrementalFilterMember(rows: seq<DemoRow>, existing: set<(string, int)>, x: DemoRow)
    ensures x in IncrementalFilter(rows, existing) <==> x in rows && StateYear(x) !in existing
  {
    FilterMember(rows, NotStored(existing), x);
  }

  /** … keeps their order, … */
  lemma IncrementalFilterConcat(a: seq<DemoRow>, b: seq<DemoRow>, existing: set<(string, int)>)
    ensures IncrementalFilter(a + b, existing) == IncrementalFilter(a, existing) + IncrementalFilter(b, existing)
  {
    FilterConcat(a, b, NotStored(existing));
  }

  /** … keeps everything when nothing is stored, … */
  lemma IncrementalFilterNothingStored(rows: seq<DemoRow>)
    ensures IncrementalFilter(rows, {}) == rows
  {
    FilterKeepsAll(rows, NotStored({}));
  }

  /** … and once its result is stored, filtering the same rows again leaves nothing. */
  lemma IncrementalFilterAgain(rows: seq<DemoRow>, existing: set<(string, int)>)
    ensures IncrementalFilter(rows, existing + StateYears(IncrementalFilter(rows, existing))) == []
  {
    var kept := IncrementalFilter(rows, existing);
    var after := existing + StateYears(kept);
    forall i | 0 <= i < |rows| ensures !NotStored(after)(rows[i]) {
      IncrementalFilterMember(rows, existing, rows[i]);
      if StateYear(rows[i]) !in existing {
        var t :| 0 <= t < |kept| && kept[t] == rows[i];
        assert StateYear(kept[t]) in StateYears(kept);
      }
    }
    FilterNone(rows, NotStored(after));
  }

  function WriteModeFor(incremental: bool): (m: WriteMode)
    ensures m == Append <==> incremental
  {
    if incremental then Append else Replace
  }

  /** The cleaned frame `upload_to_postgres` builds, or the error raised on the way. */
  function Cleaned(fields: seq<string>, years: seq<int>, engine: seq<string> -> Option<Frame>): Result<DemoTable, DemoError> {
    if |fields| == 0 || |years| == 0 then Err(EmptyFieldsOrYears) else EdaSpec(engine(SelectClause(fields, years)))
  }

  /** The tables after the upload of nonempty cleaned `rows`, once the stored pairs (when
      incremental) have been read: the rows not stored yet are appended (incremental) or replace
      the table (otherwise), when there are any and the server commits the write. */
  function Uploaded(tables: map<string, seq<DemoRow>>, table: string, rows: seq<DemoRow>, incremental: bool,
                    online: bool, accepts: Acceptance<DemoRow>): map<string, seq<DemoRow>>
    requires incremental ==> table in tables
  {
    var delta := if incremental then IncrementalFilter(rows, StateYears(tables[table])) else rows;
    if |delta| > 0 then Attempt(tables, table, delta, WriteModeFor(incremental), online, accepts) else tables
  }

  /** The `try` block of `upload_to_postgres` on nonempty cleaned rows: an incremental run first
      reads the stored (state, year) pairs, and a failure there propagates with nothing written;
      then `upload_data` gets whatever is left, when anything is. */
  method UploadCleaned(pg: PostgresManager<DemoRow>, rows: seq<DemoRow>, table: string, incremental: bool)
    returns (r: Result<(), DemoError>)
    modifies pg.db
    ensures incremental && !old(pg.CanRead(table)) ==> r == Err(FetchFailed) && pg.db.tables == old(pg.db.tables)
    ensures !incremental || old(pg.CanRead(table)) ==>
      r == Ok(()) && pg.db.tables == Uploaded(old(pg.db.tables), table, rows, incremental, old(pg.Online()), pg.db.accepts)
  {
    var sent := rows;
    if incremental {
      var stored := pg.ReadTable(table);
      if stored.None? {
        return Err(FetchFailed);
      }
      sent := IncrementalFilter(rows, StateYears(stored.value));
    }
    if |sent| > 0 {
      var _ := pg.UploadData(sent, table, WriteModeFor(incremental));
    }
    return Ok(());
  }

  /** `upload_to_postgres`: the query and the reshaping errors propagate with nothing written; an
      empty result writes nothing; otherwise the cleaned rows go to `UploadCleaned`. */
  method UploadToPostgres(pg: PostgresManager<DemoRow>, fields: seq<string>, years: seq<int>,
                          engine: seq<string> -> Option<Frame>, table: string, incremental: bool)
    returns (r: Result<(), DemoError>)
    modifies pg.db
    ensures Cleaned(fields, years, engine).Err? ==>
      r == Err(Cleaned(fields, years, engine).error) && pg.db.tables == old(pg.db.tables)
    ensures Cleaned(fields, years, engine).Ok? && |Cleaned(fields, years, engine).value.rows| == 0 ==>
      r == Ok(()) && pg.db.tables == old(pg.db.tables)
    ensures Cleaned(fields, years, engine).Ok? && |Cleaned(fields, years, engine).value.rows| > 0 ==>
      if incremental && !old(pg.CanRead(table)) then
        r == Err(FetchFailed) && pg.db.tables == old(pg.db.tables)
      else
        r == Ok(()) &&
        pg.db.tables == Uploaded(old(pg.db.tables), table, Cleaned(fields, years, engine).value.rows, incremental,
                                 old(pg.Online()), pg.db.accepts)
  {
    var queried := QueryData(fields, years, engine);
    if queried.Err? {
      return Err(queried.error);
    }
    var cleaned := EdaDemo(queried.value);
    if cleaned.Err? {
      return Err(cleaned.error);
    }
    if |cleaned.value.rows| == 0 {
      return Ok(());
    }
    r := UploadCleaned(pg, cleaned.value.rows, table, incremental);
  }

  /** A full (non-incremental) upload whose `replace` the server commits leaves exactly the
      cleaned rows in the table and every other table as it was; one it refuses changes nothing. */
  lemma UploadedReplaces(tables: map<string, seq<DemoRow>>, table: string, rows: seq<DemoRow>, accepts: Acceptance<DemoRow>)
    requires |rows| > 0
    ensures accepts(tables, table, rows, Replace) ==>
      table in Uploaded(tables, table, rows, false, true, accepts) && Uploaded(tables, table, rows, false, true, accepts)[table] == rows
    ensures forall other :: other in tables && other != table ==>
      other in Uploaded(tables, table, rows, false, true, accepts) && Uploaded(tables, table, rows, false, true, accepts)[other] == tables[other]
    ensures !accepts(tables, table, rows, Replace) ==> Uploaded(tables, table, rows, false, true, accepts) == tables
  {
  }

  /** An incremental upload whose append the server commits keeps the stored rows in front, and
      afterwards every (state, year) pair of the cleaned rows is stored. */
  lemma UploadedIncrementalStoresAll(tables: map<string, seq<DemoRow>>, table: string, rows: seq<DemoRow>,
                                     accepts: Acceptance<DemoRow>)
    requires table in tables && accepts(tables, table, IncrementalFilter(rows, StateYears(tables[table])), Append)
    ensures table in Uploaded(tables, table, rows, true, true, accepts)
    ensures |Uploaded(tables, table, rows, true, true, accepts)[table]| >= |tables[table]|
    ensures Uploaded(tables, table, rows, true, true, accepts)[table][..|tables[table]|] == tables[table]
    ensures forall i :: 0 <= i < |rows| ==> StateYear(rows[i]) in StateYears(Uploaded(tables, table, rows, true, true, accepts)[table])
  {
    var stored := tables[table];
    var delta := IncrementalFilter(rows, StateYears(stored));
    var after := Uploaded(tables, table, rows, true, true, accepts)[table];
    assert after == stored + delta;
    forall i | 0 <= i < |rows| ensures StateYear(rows[i]) in StateYears(after) {
      IncrementalFilterMember(rows, StateYears(stored), rows[i]);
      if StateYear(rows[i]) in StateYears(stored) {
        var t :| 0 <= t < |stored| && StateYear(stored[t]) == StateYear(rows[i]);
        assert after[t] == stored[t];
      } else {
        var t :| 0 <= t < |delta| && delta[t] == rows[i];
        assert after[|stored| + t] == delta[t];
      }
    }
  }

  /** Running the same incremental upload twice stores nothing the second time. */
  lemma UploadedIncrementalIdempotent(tables: map<string, seq<DemoRow>>, table: string, rows: seq<DemoRow>,
                                      online: bool, accepts: Acceptance<DemoRow>)
    requires table in tables
    ensures table in Uploaded(tables, table, rows, true, online, accepts)
    ensures Uploaded(Uploaded(tables, table, rows, true, online, accepts), table, rows, true, online, accepts)
         == Uploaded(tables, table, rows, true, online, accepts)
  {
    var stored := tables[table];
    var delta := IncrementalFilter(rows, StateYears(stored));
    var once := Uploaded(tables, table, rows, true, online, accepts);
    if online && |delta| > 0 && accepts(tables, table, delta, Append) {
      assert once[table] == stored + delta;
      StateYearsConcat(stored, delta);
      IncrementalFilterAgain(rows, StateYears(stored));
    }
  }

  lemma StateYearsConcat(a: seq<DemoRow>, b: seq<DemoRow>)
    ensures StateYears(a + b) == StateYears(a) + StateYears(b)
  {
    forall p | p in StateYears(a + b) ensures p in StateYears(a) + StateYears(b) {
      var i :| 0 <= i < |a + b| && StateYear((a + b)[i]) == p;
      if i >= |a| {
        assert (a + b)[i] == b[i - |a|];
      }
    }
    forall p | p in StateYears(a) + StateYears(b) ensures p in StateYears(a + b) {
      if p in StateYears(a) {
        var i :| 0 <= i < |a| && StateYear(a[i]) == p;
        assert (a + b)[i] == a[i];
      } else {
        var i :| 0 <= i < |b| && StateYear(b[i]) == p;
        assert (a + b)[|a| + i] == b[i];
      }
    }
  }
}
