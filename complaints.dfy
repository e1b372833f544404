/** The complaints pipeline: the advisory checks of `validate_data`, and the staging table that
    `load_data` creates, `clean_data` alters in place (two dropped columns, the date cast, the
    removal of every row that is not the lowest-rowid row of its (date, product, state) group),
    and `upload_to_postgres` reads in windows of 100000 rows to write them to the store. */
module Complaints {
  import opened Wrappers
  import opened Seqs
  import opened Postgres

  // ---------------------------------------------------------------------------
  // Data

  /** A cell of the staging table: null, text, or a date as a day number counted from
      1970-01-01. In the `Date received` column a `Text` cell is a value that no date parser
      accepts. */
  datatype Value = Null | Text(text: string) | Day(day: int)

  /** A row as `SELECT *` returns it: the cells by column name; a column absent from the map reads as null. */
  type Record = map<string, Value>

  /** A row of the staging table with its DuckDB `rowid`. */
  datatype Stored = Stored(rowid: int, cells: Record)

  datatype Warning =
    | HighMissing(column: string)  // more than 10% of the column is null
    | DatesBefore2010              // the earliest parsed date lies before 2010-01-01

  datatype ComplaintsError =
    | MissingColumns(missing: set<string>)  // `validate_data`: required columns absent
    | TableExists                           // `CREATE TABLE complaints` a second time
    | NoTable                               // `clean_data` or `upload_to_postgres` before `load_data`
    | NoSuchColumn(column: string)          // `ALTER`/`GROUP BY`/`df_chunk[...]` on a column that is not there
    | CastFailed                            // `"Date received"::DATE` on an unparseable value
    | FetchFailed                           // `pd.read_sql` of the stored dates raised

  const DateColumn: string := "Date received"
  const ProductColumn: string := "Product"
  const StateColumn: string := "State"
  const TagsColumn: string := "Tags"
  const ZipColumn: string := "ZIP code"

  const Required: set<string> := {DateColumn, ProductColumn, StateColumn}

  /** 2010-01-01 as a day number: forty years of 365 days and the ten leap days 1972 … 2008. */
  const Floor: int := 40 * 365 + 10

  const ChunkSize: nat := 100000

  function Get(r: Record, column: string): Value {
    if column in r then r[column] else Null
  }

  // ---------------------------------------------------------------------------
  // `validate_data`

  function NullCount(records: seq<Record>, column: string): (n: nat)
    ensures n <= |records|
  {
    if |records| == 0 then 0
    else (if Get(records[0], column) == Null then 1 else 0) + NullCount(records[1..], column)
  }

  /** `df.isnull().mean() * 100 > 10`: more than a tenth of the rows are null. An empty frame
      has mean NaN, which is not above 10. */
  predicate MostlyMissing(records: seq<Record>, column: string) {
    10 * NullCount(records, column) > |records|
  }

  /** One warning per column, in column order, whose null share exceeds 10%. */
  function MissingWarnings(columns: seq<string>, records: seq<Record>): seq<Warning> {
    if |columns| == 0 then []
    else (if MostlyMissing(records, columns[0]) then [HighMissing(columns[0])] else []) + MissingWarnings(columns[1..], records)
  }

  lemma {:induction false} MissingWarningsMember(columns: seq<string>, records: seq<Record>, w: Warning)
    ensures w in MissingWarnings(columns, records) <==> w.HighMissing? && w.column in columns && MostlyMissing(records, w.column)
  {
    if |columns| > 0 {
      MissingWarningsMember(columns[1..], records, w);
      assert columns == [columns[0]] + columns[1..];
    }
  }

  /** After `pd.to_datetime(..., errors='coerce')` only parsed dates remain; the minimum ignores
      the rest, and is NaT (never below the floor) when no date parsed. */
  predicate EarlyDateAt(records: seq<Record>, i: int) {
    0 <= i < |records| && Get(records[i], DateColumn).Day? && Get(records[i], DateColumn).day < Floor
  }

  predicate HasEarlyDate(records: seq<Record>) {
    exists i :: 0 <= i < |records| && EarlyDateAt(records, i)
  }

  /** `validate_data`: the error names exactly the missing required columns; otherwise the
      warnings, which never stop processing. */
  function ValidateData(columns: seq<string>, records: seq<Record>): (r: Result<seq<Warning>, ComplaintsError>)
    ensures r.Err? <==> !(Required <= set c | c in columns)
    ensures r.Err? ==> r.error == MissingColumns(Required - set c | c in columns) && r.error.missing != {}
    ensures r.Ok? ==> (DatesBefore2010 in r.value <==> HasEarlyDate(records))
  {
    var present := set c | c in columns;
    if !(Required <= present) then
      var absent :| absent in Required && absent !in present;
      assert absent in Required - present;
      Err(MissingColumns(Required - present))
    else
      var early := if HasEarlyDate(records) then [DatesBefore2010] else [];
      MissingWarningsMember(columns, records, DatesBefore2010);
      Ok(MissingWarnings(columns, records) + early)
  }

  /** A column warns exactly when more than a tenth of it is null. */
  lemma ValidateWarnsMissing(columns: seq<string>, records: seq<Record>, column: string)
    requires Required <= set c | c in columns
    ensures ValidateData(columns, records).Ok?
    ensures HighMissing(column) in ValidateData(columns, records).value <==> column in columns && MostlyMissing(records, column)
  {
    MissingWarningsMember(columns, records, HighMissing(column));
  }

  // ---------------------------------------------------------------------------
  // `clean_data` on values

  function NotNamed(column: string): string -> bool {
    c => c != column
  }

  /** The column list after `ALTER TABLE … DROP COLUMN column`. */
  function Without(columns: seq<string>, column: string): (r: seq<string>)
    ensures column !in r
  {
    FilterMember(columns, NotNamed(column), column);
    Filter(columns, NotNamed(column))
  }

  /** Dropping a column keeps exactly the other columns, … */
  lemma WithoutMember(columns: seq<string>, column: string, c: string)
    ensures c in Without(columns, column) <==> c in columns && c != column
  {
    FilterMember(columns, NotNamed(column), c);
  }

  /** … in their order: a column kept between two others stays between them. */
  lemma WithoutKeepsOrder(before: seq<string>, c: string, after: seq<string>, column: string)
    ensures Without(before + [c] + after, column)
         == Without(before, column) + (if c == column then [] else [c]) + Without(after, column)
  {
    assert before + [c] + after == before + ([c] + after);
    FilterConcat(before, [c] + after, NotNamed(column));
    FilterCons(c, after, NotNamed(column));
  }

  function WithoutCell(column: string): Stored -> Stored {
    (r: Stored) => Stored(r.rowid, r.cells - {column})
  }

  /** The rows after dropping `column`: same rows, same rowids, the other cells as they were. */
  function DropCells(rows: seq<Stored>, column: string): (r: seq<Stored>)
    ensures |r| == |rows|
    ensures forall i :: 0 <= i < |rows| ==> r[i].rowid == rows[i].rowid && column !in r[i].cells
    ensures forall i, c :: 0 <= i < |rows| && c != column ==> Get(r[i].cells, c) == Get(rows[i].cells, c)
  {
    Map(rows, WithoutCell(column))
  }

  predicate HasUnparsedDate(rows: seq<Stored>) {
    exists i :: 0 <= i < |rows| && Get(rows[i].cells, DateColumn).Text?
  }

  /** The grouping key of the duplicate check. */
  function Triple(r: Stored): (Value, Value, Value) {
    (Get(r.cells, DateColumn), Get(r.cells, ProductColumn), Get(r.cells, StateColumn))
  }

  /** `r` has the smallest rowid of its (date, product, state) group in `all`: it is the row
      `MIN(rowid) … GROUP BY` selects. SQL groups null keys together, as `Null == Null` does here. */
  predicate IsGroupMin(all: seq<Stored>, r: Stored) {
    forall j :: 0 <= j < |all| && Triple(all[j]) == Triple(r) ==> r.rowid <= all[j].rowid
  }

  function GroupMin(all: seq<Stored>): Stored -> bool {
    r => IsGroupMin(all, r)
  }

  /** `DELETE FROM complaints WHERE rowid NOT IN (SELECT MIN(rowid) … GROUP BY …)`. */
  function RemoveDuplicates(rows: seq<Stored>): (r: seq<Stored>)
    ensures |r| <= |rows|
    ensures forall i :: 0 <= i < |r| ==> IsGroupMin(rows, r[i])
  {
    Filter(rows, GroupMin(rows))
  }

  predicate RowidBefore(a: Stored, b: Stored) {
    a.rowid < b.rowid
  }

  /** Rowids strictly increase down the table. */
  predicate Increasing(rows: seq<Stored>) {
    forall i, j :: 0 <= i < j < |rows| ==> RowidBefore(rows[i], rows[j])
  }

  /** The survivors of the dedup keep their relative order. */
  lemma DedupKeepsOrder(rows: seq<Stored>)
    requires Increasing(rows)
    ensures Increasing(RemoveDuplicates(rows))
  {
    FilterKeepsOrder(rows, GroupMin(rows), RowidBefore);
  }

  /** A row survives exactly when it has the lowest rowid of its group. */
  lemma DedupMember(rows: seq<Stored>, x: Stored)
    ensures x in RemoveDuplicates(rows) <==> x in rows && IsGroupMin(rows, x)
  {
    FilterMember(rows, GroupMin(rows), x);
  }

  /** No two survivors share a (date, product, state) triple. */
  lemma DedupNoSharedTriple(rows: seq<Stored>)
    requires Increasing(rows)
    ensures forall i, j :: 0 <= i < j < |RemoveDuplicates(rows)| ==> Triple(RemoveDuplicates(rows)[i]) != Triple(RemoveDuplicates(rows)[j])
  {
    var kept := RemoveDuplicates(rows);
    DedupKeepsOrder(rows);
    forall i, j | 0 <= i < j < |kept| ensures Triple(kept[i]) != Triple(kept[j]) {
      DedupMember(rows, kept[i]);
      var t :| 0 <= t < |rows| && rows[t] == kept[i];
      assert IsGroupMin(rows, kept[j]);
      assert RowidBefore(kept[i], kept[j]);
    }
  }

  /** The first row of the table with the triple of row `i`. */
  lemma {:induction false} EarliestOfTriple(rows: seq<Stored>, i: int) returns (k: int)
    requires 0 <= i < |rows|
    ensures 0 <= k <= i && Triple(rows[k]) == Triple(rows[i])
    ensures forall j :: 0 <= j < k ==> Triple(rows[j]) != Triple(rows[i])
    decreases i
  {
    if j :| 0 <= j < i && Triple(rows[j]) == Triple(rows[i]) {
      k := EarliestOfTriple(rows, j);
    } else {
      k := i;
    }
  }

  /** Every triple present before the dedup is still present afterwards. */
  lemma DedupKeepsTriples(rows: seq<Stored>)
    requires Increasing(rows)
    ensures forall i :: 0 <= i < |rows| ==> exists j :: 0 <= j < |RemoveDuplicates(rows)| && Triple(RemoveDuplicates(rows)[j]) == Triple(rows[i])
  {
    var kept := RemoveDuplicates(rows);
    forall i | 0 <= i < |rows| ensures exists j :: 0 <= j < |kept| && Triple(kept[j]) == Triple(rows[i]) {
      var k := EarliestOfTriple(rows, i);
      forall j | 0 <= j < |rows| && Triple(rows[j]) == Triple(rows[k]) ensures rows[k].rowid <= rows[j].rowid {
        if j != k {
          assert RowidBefore(rows[k], rows[j]);
        }
      }
      assert IsGroupMin(rows, rows[k]);
      DedupMember(rows, rows[k]);
      var t :| 0 <= t < |kept| && kept[t] == rows[k];
    }
  }

  // ---------------------------------------------------------------------------
  // `upload_to_postgres` on values

  function Records(rows: seq<Stored>): (r: seq<Record>)
    ensures |r| == |rows| && forall i :: 0 <= i < |rows| ==> r[i] == rows[i].cells
  {
    Map(rows, (s: Stored) => s.cells)
  }

  /** `LIMIT ChunkSize OFFSET offset`. */
  function Window(records: seq<Record>, offset: nat): (w: seq<Record>)
    ensures |w| <= ChunkSize
    ensures |w| == 0 <==> offset >= |records|
    ensures offset < |records| ==> w == records[offset..if offset + ChunkSize < |records| then offset + ChunkSize else |records|]
  {
    if offset >= |records| then []
    else records[offset..if offset + ChunkSize < |records| then offset + ChunkSize else |records|]
  }

  /** The windows the loop reads from `offset` on, up to the first empty one. */
  function Chunks(records: seq<Record>, offset: nat): seq<seq<Record>>
    decreases |records| - offset
  {
    if offset >= |records| then [] else [Window(records, offset)] + Chunks(records, offset + ChunkSize)
  }

  /** The windows read from `offset` on, put together again, are the rest of the table in order. */
  lemma {:induction false} ChunksReassemble(records: seq<Record>, offset: nat)
    requires offset <= |records|
    ensures FlattenFront(Chunks(records, offset)) == records[offset..]
    decreases |records| - offset
  {
    if offset < |records| {
      if offset + ChunkSize < |records| {
        ChunksReassemble(records, offset + ChunkSize);
        assert records[offset..] == records[offset..offset + ChunkSize] + records[offset + ChunkSize..];
      } else {
        assert Chunks(records, offset + ChunkSize) == [];
      }
    }
  }

  /** Concatenation of a sequence of sequences, from the front. */
  function FlattenFront(ss: seq<seq<Record>>): seq<Record> {
    if |ss| == 0 then [] else ss[0] + FlattenFront(ss[1..])
  }

  /** `if_exists='append' if offset > 0 or incremental else 'replace'`. */
  function ChunkMode(offset: nat, incremental: bool): (m: WriteMode)
    ensures m == Replace <==> offset == 0 && !incremental
  {
    if offset > 0 || incremental then Append else Replace
  }

  function DateOf(r: Record): Value {
    Get(r, DateColumn)
  }

  /** `SELECT DISTINCT "Date received"`. */
  function Dates(records: seq<Record>): set<Value> {
    set i | 0 <= i < |records| :: DateOf(records[i])
  }

  function NewDate(stored: set<Value>): Record -> bool {
    r => DateOf(r) !in stored
  }

  /** `~df_chunk['Date received'].isin(existing_keys['Date received'])`: the key is the date
      alone; product and state play no part. */
  function KeepNewDates(chunk: seq<Record>, stored: set<Value>): (r: seq<Record>)
    ensures |r| <= |chunk|
    ensures forall i :: 0 <= i < |r| ==> DateOf(r[i]) !in stored
  {
    Filter(chunk, NewDate(stored))
  }

  /** A row is sent exactly when its date is not stored, whatever its product and state. */
  lemma KeepNewDatesMember(chunk: seq<Record>, stored: set<Value>, x: Record)
    ensures x in KeepNewDates(chunk, stored) <==> x in chunk && DateOf(x) !in stored
  {
    FilterMember(chunk, NewDate(stored), x);
  }

  /** The tables after one chunk, when the read of the stored dates (if incremental) succeeded:
      `upload_data` hands what is left after the date filter to `to_sql`, unless that is empty. */
  function Step(tables: map<string, seq<Record>>, table: string, chunk: seq<Record>, offset: nat, incremental: bool,
                online: bool, accepts: Acceptance<Record>): map<string, seq<Record>>
    requires incremental ==> table in tables
  {
    var sent := if incremental then KeepNewDates(chunk, Dates(tables[table])) else chunk;
    if |sent| > 0 then Attempt(tables, table, sent, ChunkMode(offset, incremental), online, accepts) else tables
  }

  /** The outcome of the chunk loop from `offset` on: the read of the stored dates fails when the
      server cannot be reached or the table does not exist yet, and that exception ends the loop
      with what earlier chunks wrote left in place; what each write reports is ignored. */
  function ChunkedUpload(tables: map<string, seq<Record>>, table: string, records: seq<Record>, offset: nat,
                         incremental: bool, online: bool, accepts: Acceptance<Record>)
    : (Result<(), ComplaintsError>, map<string, seq<Record>>)
    decreases |records| - offset
  {
    if offset >= |records| then (Ok(()), tables)
    else if incremental && !(online && table in tables) then (Err(FetchFailed), tables)
    else ChunkedUpload(Step(tables, table, Window(records, offset), offset, incremental, online, accepts), table, records,
                       offset + ChunkSize, incremental, online, accepts)
  }

  /** A write the server refuses does not stop the loop: once the server is reachable (and, when
      incremental, the target exists), the run goes on to the last window and succeeds. */
  lemma {:induction false} RefusedWritesIgnored(tables: map<string, seq<Record>>, table: string, records: seq<Record>,
                                                offset: nat, incremental: bool, accepts: Acceptance<Record>)
    requires incremental ==> table in tables
    ensures ChunkedUpload(tables, table, records, offset, incremental, true, accepts).0 == Ok(())
    decreases |records| - offset
  {
    if offset < |records| {
      var next := Step(tables, table, Window(records, offset), offset, incremental, true, accepts);
      RefusedWritesIgnored(next, table, records, offset + ChunkSize, incremental, accepts);
    }
  }

  /** A full run whose first `replace` and later appends the server commits leaves exactly the
      table's rows, in order, in the target table, and every other table as it was. */
  lemma FullRunCopiesTable(tables: map<string, seq<Record>>, table: string, records: seq<Record>, accepts: Acceptance<Record>)
    requires |records| > 0
    requires accepts(tables, table, Window(records, 0), Replace) && AcceptsAppends(accepts)
    ensures ChunkedUpload(tables, table, records, 0, false, true, accepts).0 == Ok(())
    ensures table in ChunkedUpload(tables, table, records, 0, false, true, accepts).1
    ensures ChunkedUpload(tables, table, records, 0, false, true, accepts).1[table] == records
    ensures forall t :: t in tables && t != table ==>
      t in ChunkedUpload(tables, table, records, 0, false, true, accepts).1 &&
      ChunkedUpload(tables, table, records, 0, false, true, accepts).1[t] == tables[t]
  {
    var w := Window(records, 0);
    var first := Step(tables, table, w, 0, false, true, accepts);
    assert first == Written(tables, table, w, Replace);
    FullRunAppends(first, table, records, ChunkSize, accepts, tables);
    assert w + records[|w|..] == records;
  }

  /** When the server refuses the first window's `replace` but commits every append, the run
      still succeeds and appends the later windows to the old table: the target ends as its old
      rows followed by everything but the first window. */
  lemma FirstReplaceRefused(tables: map<string, seq<Record>>, table: string, records: seq<Record>, accepts: Acceptance<Record>)
    requires table in tables && AcceptsAppends(accepts)
    requires !accepts(tables, table, Window(records, 0), Replace)
    ensures ChunkedUpload(tables, table, records, 0, false, true, accepts).0 == Ok(())
    ensures table in ChunkedUpload(tables, table, records, 0, false, true, accepts).1
    ensures ChunkedUpload(tables, table, records, 0, false, true, accepts).1[table] == tables[table] + records[|Window(records, 0)|..]
  {
    if |records| > 0 {
      assert Step(tables, table, Window(records, 0), 0, false, true, accepts) == tables;
      FullRunAppends(tables, table, records, ChunkSize, accepts, tables);
    }
  }

  /** From a later window on, a full run whose appends the server commits adds the rest of the
      table after what the target holds, and leaves every other table as it was. */
  lemma {:induction false} FullRunAppends(tables: map<string, seq<Record>>, table: string, records: seq<Record>, offset: nat,
                                          accepts: Acceptance<Record>, original: map<string, seq<Record>>)
    requires offset > 0 && table in tables && AcceptsAppends(accepts)
    requires forall t :: t in original && t != table ==> t in tables && tables[t] == original[t]
    ensures ChunkedUpload(tables, table, records, offset, false, true, accepts).0 == Ok(())
    ensures table in ChunkedUpload(tables, table, records, offset, false, true, accepts).1
    ensures ChunkedUpload(tables, table, records, offset, false, true, accepts).1[table]
         == tables[table] + records[if offset < |records| then offset else |records|..]
    ensures forall t :: t in original && t != table ==>
      t in ChunkedUpload(tables, table, records, offset, false, true, accepts).1 &&
      ChunkedUpload(tables, table, records, offset, false, true, accepts).1[t] == original[t]
    decreases |records| - offset
  {
    if offset < |records| {
      var next := Step(tables, table, Window(records, offset), offset, false, true, accepts);
      var end := if offset + ChunkSize < |records| then offset + ChunkSize else |records|;
      FullRunAppendStep(tables, table, records, offset, accepts);
      FullRunAppends(next, table, records, offset + ChunkSize, accepts, original);
      assert records[offset..end] + records[end..] == records[offset..];
    } else {
      assert records[|records|..] == [];
    }
  }

  /** One later window of a full run, appended: the target grows by the window and nothing else changes. */
  lemma FullRunAppendStep(tables: map<string, seq<Record>>, table: string, records: seq<Record>, offset: nat,
                          accepts: Acceptance<Record>)
    requires 0 < offset < |records| && table in tables && AcceptsAppends(accepts)
    ensures var next := Step(tables, table, Window(records, offset), offset, false, true, accepts);
      table in next &&
      next[table] == tables[table] + records[offset..if offset + ChunkSize < |records| then offset + ChunkSize else |records|] &&
      forall t :: t in tables && t != table ==> t in next && next[t] == tables[t]
  {
    assert accepts(tables, table, Window(records, offset), Append);
  }

  /** One incremental chunk, when the server commits its append, adds the rows with new dates,
      and afterwards every date of the chunk is stored. */
  lemma IncrementalStepStoresChunkDates(tables: map<string, seq<Record>>, table: string, chunk: seq<Record>, offset: nat,
                                        accepts: Acceptance<Record>)
    requires table in tables && accepts(tables, table, KeepNewDates(chunk, Dates(tables[table])), Append)
    ensures table in Step(tables, table, chunk, offset, true, true, accepts)
    ensures Step(tables, table, chunk, offset, true, true, accepts)[table] == tables[table] + KeepNewDates(chunk, Dates(tables[table]))
    ensures forall i :: 0 <= i < |chunk| ==> DateOf(chunk[i]) in Dates(Step(tables, table, chunk, offset, true, true, accepts)[table])
  {
    var stored := tables[table];
    var sent := KeepNewDates(chunk, Dates(stored));
    var after := Step(tables, table, chunk, offset, true, true, accepts)[table];
    assert after == stored + sent;
    forall i | 0 <= i < |chunk| ensures DateOf(chunk[i]) in Dates(after) {
      var x := chunk[i];
      KeepNewDatesMember(chunk, Dates(stored), x);
      if DateOf(x) in Dates(stored) {
        var t :| 0 <= t < |stored| && DateOf(stored[t]) == DateOf(x);
        assert after[t] == stored[t];
      } else {
        var u :| 0 <= u < |sent| && sent[u] == x;
        assert after[|stored| + u] == x;
      }
    }
  }

  /** The dates of a prefix are dates of the whole. */
  lemma DatesOfPrefix(front: seq<Record>, whole: seq<Record>)
    requires |front| <= |whole| && whole[..|front|] == front
    ensures Dates(front) <= Dates(whole)
  {
    forall v | v in Dates(front) ensures v in Dates(whole) {
      var t :| 0 <= t < |front| && DateOf(front[t]) == v;
      assert whole[t] == front[t];
    }
  }

  /** An incremental run whose appends the server commits keeps what was stored in front and
      leaves every date of the table stored: the stored dates are read again before every chunk,
      so a row whose date an earlier chunk wrote is dropped, yet its date is stored. */
  lemma {:induction false} IncrementalRunStoresAllDates(tables: map<string, seq<Record>>, table: string, records: seq<Record>,
                                                        offset: nat, accepts: Acceptance<Record>)
    requires table in tables && AcceptsAppends(accepts)
    ensures ChunkedUpload(tables, table, records, offset, true, true, accepts).0 == Ok(())
    ensures table in ChunkedUpload(tables, table, records, offset, true, true, accepts).1
    ensures |ChunkedUpload(tables, table, records, offset, true, true, accepts).1[table]| >= |tables[table]|
    ensures ChunkedUpload(tables, table, records, offset, true, true, accepts).1[table][..|tables[table]|] == tables[table]
    ensures forall i :: offset <= i < |records| ==>
      DateOf(records[i]) in Dates(ChunkedUpload(tables, table, records, offset, true, true, accepts).1[table])
    decreases |records| - offset
  {
    if offset < |records| {
      var stored := tables[table];
      var chunk := Window(records, offset);
      var next := Step(tables, table, chunk, offset, true, true, accepts);
      assert accepts(tables, table, KeepNewDates(chunk, Dates(stored)), Append);
      IncrementalStepStoresChunkDates(tables, table, chunk, offset, accepts);
      IncrementalRunStoresAllDates(next, table, records, offset + ChunkSize, accepts);
      var after := ChunkedUpload(next, table, records, offset + ChunkSize, true, true, accepts).1[table];
      assert after[..|stored|] == stored by {
        assert after[..|next[table]|] == next[table];
        assert next[table][..|stored|] == stored;
      }
      DatesOfPrefix(next[table], after);
      forall i | offset <= i < |records| && i < offset + ChunkSize ensures DateOf(records[i]) in Dates(after) {
        assert records[i] == chunk[i - offset];
      }
    }
  }

  /** When every date of the table is already stored, an incremental run writes nothing, whatever
      the server would commit. */
  lemma {:induction false} IncrementalRunNoNewDates(tables: map<string, seq<Record>>, table: string, records: seq<Record>,
                                                    offset: nat, accepts: Acceptance<Record>)
    requires table in tables
    requires forall i :: offset <= i < |records| ==> DateOf(records[i]) in Dates(tables[table])
    ensures ChunkedUpload(tables, table, records, offset, true, true, accepts) == (Ok(()), tables)
    decreases |records| - offset
  {
    if offset < |records| {
      var chunk := Window(records, offset);
      forall i | 0 <= i < |chunk| ensures !NewDate(Dates(tables[table]))(chunk[i]) {
        assert chunk[i] == records[offset + i];
      }
      FilterNone(chunk, NewDate(Dates(tables[table])));
      IncrementalRunNoNewDates(tables, table, records, offset + ChunkSize, accepts);
    }
  }

  /** Running the same incremental upload twice writes nothing the second time. */
  lemma IncrementalRunIdempotent(tables: map<string, seq<Record>>, table: string, records: seq<Record>, accepts: Acceptance<Record>)
    requires table in tables && AcceptsAppends(accepts)
    ensures var once := ChunkedUpload(tables, table, records, 0, true, true, accepts).1;
      ChunkedUpload(once, table, records, 0, true, true, accepts) == (Ok(()), once)
  {
    IncrementalRunStoresAllDates(tables, table, records, 0, accepts);
    IncrementalRunNoNewDates(ChunkedUpload(tables, table, records, 0, true, true, accepts).1, table, records, 0, accepts);
  }

  // ---------------------------------------------------------------------------
  // The staging table

  /** `ComplaintsEDA`: the DuckDB `complaints` table (whether it exists, its columns, its rows)
      and the connection manager it inherits. */
  class ComplaintsEda {
    var loaded: bool
    var columns: seq<string>
    var rows: seq<Stored>
    const pg: PostgresManager<Record>

    ghost predicate Valid()
      reads this
    {
      Increasing(rows)
    }

    constructor (pg: PostgresManager<Record>)
      ensures Valid() && this.pg == pg
      ensures !loaded && columns == [] && rows == []
    {
      this.pg := pg;
      loaded := false;
      columns := [];
      rows := [];
    }

    /** `load_data`: `CREATE TABLE complaints AS SELECT * FROM read_csv_auto(…)`, which numbers the
        rows from 0 and fails when the table exists, then `validate_data` on what it holds. The
        table stays created when validation raises. */
    method LoadData(csvColumns: seq<string>, csv: seq<Record>) returns (r: Result<seq<Warning>, ComplaintsError>)
      requires Valid()
      modifies this`loaded, this`columns, this`rows
      ensures Valid()
      ensures old(loaded) ==> r == Err(TableExists) && loaded && columns == old(columns) && rows == old(rows)
      ensures !old(loaded) ==> loaded && columns == csvColumns && r == ValidateData(csvColumns, csv)
      ensures !old(loaded) ==> |rows| == |csv| && forall i :: 0 <= i < |csv| ==> rows[i] == Stored(i, csv[i])
    {
      if loaded {
        return Err(TableExists);
      }
      loaded := true;
      columns := csvColumns;
      rows := seq(|csv|, i requires 0 <= i < |csv| => Stored(i, csv[i]));
      assert forall i, j :: 0 <= i < j < |rows| ==> RowidBefore(rows[i], rows[j]);
      r := ValidateData(columns, Records(rows));
      assert Records(rows) == csv;
    }

    /** `clean_data`, statement by statement: each `ALTER` that fails stops the rest and leaves
        the earlier ones applied; the date cast changes no value that parses; the `DELETE` keeps
        the lowest-rowid row of every (date, product, state) group. */
    method CleanData() returns (r: Result<(), ComplaintsError>)
      requires Valid()
      modifies this`columns, this`rows
      ensures Valid()
      ensures !old(loaded) ==> r == Err(NoTable) && columns == old(columns) && rows == old(rows)
      ensures old(loaded) && TagsColumn !in old(columns) ==>
        r == Err(NoSuchColumn(TagsColumn)) && columns == old(columns) && rows == old(rows)
      ensures old(loaded) && TagsColumn in old(columns) && ZipColumn !in Without(old(columns), TagsColumn) ==>
        r == Err(NoSuchColumn(ZipColumn)) && columns == Without(old(columns), TagsColumn) && rows == DropCells(old(rows), TagsColumn)
      ensures old(loaded) && TagsColumn in old(columns) && ZipColumn in Without(old(columns), TagsColumn) ==>
        columns == Without(Without(old(columns), TagsColumn), ZipColumn) &&
        var dropped := DropCells(DropCells(old(rows), TagsColumn), ZipColumn);
        if DateColumn !in columns then r == Err(NoSuchColumn(DateColumn)) && rows == dropped
        else if HasUnparsedDate(dropped) then r == Err(CastFailed) && rows == dropped
        else if ProductColumn !in columns then r == Err(NoSuchColumn(ProductColumn)) && rows == dropped
        else if StateColumn !in columns then r == Err(NoSuchColumn(StateColumn)) && rows == dropped
        else r == Ok(()) && rows == RemoveDuplicates(dropped)
    {
      if !loaded {
        return Err(NoTable);
      }
      if TagsColumn !in columns {
        return Err(NoSuchColumn(TagsColumn));
      }
      columns := Without(columns, TagsColumn);
      rows := DropCells(rows, TagsColumn);
      if ZipColumn !in columns {
        return Err(NoSuchColumn(ZipColumn));
      }
      columns := Without(columns, ZipColumn);
      rows := DropCells(rows, ZipColumn);
      if DateColumn !in columns {
        return Err(NoSuchColumn(DateColumn));
      }
      if HasUnparsedDate(rows) {
        return Err(CastFailed);
      }
      if ProductColumn !in columns {
        return Err(NoSuchColumn(ProductColumn));
      }
      if StateColumn !in columns {
        return Err(NoSuchColumn(StateColumn));
      }
      DedupKeepsOrder(rows);
      rows := RemoveDuplicates(rows);
      r := Ok(());
    }

    /** `upload_to_postgres`: windows of `ChunkSize` rows until the first empty one; when
        incremental, the stored dates are read again before every chunk and the chunk keeps only
        rows with a new date; every chunk, even one the filter emptied, goes to `upload_data`
        with the mode `ChunkMode` picks, and its status is ignored. Before `load_data` the
        first `SELECT` finds no `complaints` table and raises. An incremental run over a staged
        table without the date column raises at the filter of its first nonempty window, after
        the read of the stored dates, before anything is written. */
    method UploadToPostgres(table: string, incremental: bool) returns (r: Result<(), ComplaintsError>)
      modifies pg.db`tables
      ensures !old(loaded) ==> r == Err(NoTable) && pg.db.tables == old(pg.db.tables)
      ensures old(loaded) && incremental && DateColumn !in columns ==>
        pg.db.tables == old(pg.db.tables) &&
        r == if |rows| == 0 then Ok(()) else if !old(pg.CanRead(table)) then Err(FetchFailed) else Err(NoSuchColumn(DateColumn))
      ensures old(loaded) && !(incremental && DateColumn !in columns) ==>
        (r, pg.db.tables) == ChunkedUpload(old(pg.db.tables), table, Records(rows), 0, incremental, old(pg.Online()), pg.db.accepts)
    {
      if !loaded {
        return Err(NoTable);
      }
      var records := Records(rows);
      ghost var online := pg.Online();
      var offset: nat := 0;
      while true
        invariant offset <= |records| + ChunkSize
        invariant pg.Online() == online
        invariant ChunkedUpload(pg.db.tables, table, records, offset, incremental, online, pg.db.accepts)
               == ChunkedUpload(old(pg.db.tables), table, records, 0, incremental, online, pg.db.accepts)
        invariant offset == 0 ==> pg.db.tables == old(pg.db.tables)
        invariant incremental && DateColumn !in columns ==> offset == 0
        decreases |records| + ChunkSize - offset
      {
        var chunk := Window(records, offset);
        if |chunk| == 0 {
          break;
        }
        if incremental {
          var stored := pg.ReadTable(table);
          if stored.None? {
            return Err(FetchFailed);
          }
          if DateColumn !in columns {
            return Err(NoSuchColumn(DateColumn));
          }
          chunk := KeepNewDates(chunk, Dates(stored.value));
        }
        var _ := pg.UploadData(chunk, table, ChunkMode(offset, incremental));
        offset := offset + ChunkSize;
      }
      return Ok(());
    }
  }
}
