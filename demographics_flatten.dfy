/** The reshaping steps of `eda_demo`, each a function over sequences of records so that
    they compose: the census column filter, the unpivot, the split of each `field.year` alias,
    the category cleanup, the year window, the (state, county, year) sort, the "first value
    wins" pivot, the per-county median imputation and the drop of the county column. */
module DemographicsFlatten {
  import opened Wrappers
  import opened Text
  import opened Seqs

  // ---------------------------------------------------------------------------
  // Data

  /** A row of the frame the parquet query returns: its `state` and `county` and the numeric
      cells keyed by column name; a column absent from `cells` reads as null. */
  datatype Row = Row(state: string, county: string, cells: map<string, Option<int>>)

  datatype Frame = Frame(columns: seq<string>, rows: seq<Row>)

  datatype DemoError =
    | EmptyFieldsOrYears           // `query_data`: fields or years empty
    | NoneFrame                    // `eda_demo`/`validate_data` given `None`
    | MissingIdColumns             // `validate_data`: `state` or `county` missing
    | YearNotInteger(column: string) // `astype(int)` on a year part that is not an integer
    | NothingToMelt                // step 3 on an empty long table: `rsplit(expand=True)` yields no columns
    | FetchFailed                  // `pd.read_sql` of the stored keys raised

  function Cell(r: Row, column: string): Option<int> {
    if column in r.cells then r.cells[column] else None
  }

  /** `df.empty`: no rows or no columns. */
  predicate IsEmpty(f: Frame) {
    |f.rows| == 0 || |f.columns| == 0
  }

  // ---------------------------------------------------------------------------
  // Step 1: drop the columns whose name mentions "census"

  predicate MentionsCensus(column: string) {
    Contains(Lower(column), "census")
  }

  predicate KeepColumn(column: string) {
    !MentionsCensus(column)
  }

  function DropCensusColumns(columns: seq<string>): (kept: seq<string>)
    ensures |kept| <= |columns|
    ensures forall i :: 0 <= i < |kept| ==> !MentionsCensus(kept[i])
  {
    Filter(columns, KeepColumn)
  }

  /** The filter keeps exactly the columns that do not mention "census". */
  lemma DropCensusMember(columns: seq<string>, column: string)
    ensures column in DropCensusColumns(columns) <==> column in columns && !MentionsCensus(column)
  {
    FilterMember(columns, KeepColumn, column);
  }

  /** Six consecutive characters of `column`, starting at `i`, spell "census" in some mix of cases. */
  predicate CensusAt(column: string, i: int) {
    0 <= i <= |column| - 6 && Lower(column[i..i + 6]) == "census"
  }

  /** A column mentions "census" exactly when it spells "census" somewhere in any letter case. */
  lemma CensusInAnyCase(column: string)
    ensures MentionsCensus(column) <==> exists i :: CensusAt(column, i)
  {
    var l := Lower(column);
    if MentionsCensus(column) {
      var i :| 0 <= i <= |l| - 6 && OccursAt(l, "census", i);
      assert Lower(column[i..i + 6]) == l[i..i + 6];
      assert CensusAt(column, i);
    }
    if exists i :: CensusAt(column, i) {
      var i :| CensusAt(column, i);
      assert Lower(column[i..i + 6]) == l[i..i + 6];
      assert OccursAt(l, "census", i);
    }
  }

  /** The filter keeps the other columns in their original order: it distributes over
      concatenation, so a column kept between two others stays between them. */
  lemma DropCensusKeepsOrder(before: seq<string>, column: string, after: seq<string>)
    ensures DropCensusColumns(before + [column] + after)
         == DropCensusColumns(before) + (if MentionsCensus(column) then [] else [column]) + DropCensusColumns(after)
  {
    assert before + [column] + after == before + ([column] + after);
    FilterConcat(before, [column] + after, KeepColumn);
    FilterCons(column, after, KeepColumn);
  }

  // ---------------------------------------------------------------------------
  // Step 2: unpivot (`pd.melt` with `state` and `county` as identifiers)

  predicate IsDataColumn(column: string) {
    column != "state" && column != "county"
  }

  /** The value columns `melt` stacks: every column but the two identifiers. */
  function DataColumns(columns: seq<string>): (data: seq<string>)
    ensures forall i :: 0 <= i < |data| ==> IsDataColumn(data[i])
  {
    Filter(columns, IsDataColumn)
  }

  datatype LongRow = LongRow(state: string, county: string, column: string, value: Option<int>)

  function MeltColumn(column: string, rows: seq<Row>): seq<LongRow> {
    seq(|rows|, j requires 0 <= j < |rows| => LongRow(rows[j].state, rows[j].county, column, Cell(rows[j], column)))
  }

  /** `melt` stacks the value columns one after the other, each holding one entry per row. */
  function Melt(columns: seq<string>, rows: seq<Row>): seq<LongRow>
    decreases |columns|
  {
    if |columns| == 0 then [] else MeltColumn(columns[0], rows) + Melt(columns[1..], rows)
  }

  /** Each stacked column holds one entry per row, in row order. */
  lemma MeltColumnEntries(column: string, rows: seq<Row>)
    ensures |MeltColumn(column, rows)| == |rows|
    ensures forall j :: 0 <= j < |rows| ==>
      MeltColumn(column, rows)[j] == LongRow(rows[j].state, rows[j].county, column, Cell(rows[j], column))
  {
  }

  /** Column-major layout: the long table of `a + b` is the long table of `a` followed by that of
      `b`, so the columns are stacked in their order. */
  lemma {:induction false} MeltConcat(a: seq<string>, b: seq<string>, rows: seq<Row>)
    ensures Melt(a + b, rows) == Melt(a, rows) + Melt(b, rows)
    decreases |a|
  {
    if |a| > 0 {
      assert (a + b)[0] == a[0] && (a + b)[1..] == a[1..] + b;
      MeltConcat(a[1..], b, rows);
    } else {
      assert a + b == b;
    }
  }

  /** The long table has `|columns| * |rows|` entries. */
  lemma {:induction false} MeltLength(columns: seq<string>, rows: seq<Row>)
    ensures |Melt(columns, rows)| == |columns| * |rows|
    decreases |columns|
  {
    if |columns| > 0 {
      MeltLength(columns[1..], rows);
      assert |columns| * |rows| == |rows| + |columns[1..]| * |rows|;
    }
  }

  // ---------------------------------------------------------------------------
  // Step 3: split each alias on its last `.` into (category, year) and clean the category

  /** `rsplit('.', n=1)` followed by `astype(int)` on the year part. */
  function SplitColumn(column: string): (r: Result<(string, int), DemoError>)
    ensures r.Err? ==> r.error == YearNotInteger(column)
    ensures '.' !in column ==> r.Err?
  {
    match RSplitOnce(column, '.')
    case None => Err(YearNotInteger(column))
    case Some((category, yearText)) =>
      match ParseInt(yearText)
      case None => Err(YearNotInteger(column))
      case Some(year) => Ok((category, year))
  }

  /** The column alias `build_select_clause` gives the value of `field` in `year`. */
  function Alias(field: string, year: int): string {
    field + "." + IntToString(year)
  }

  /** Alias round trip: splitting an alias on its last `.` and converting the year part gives back
      the field and the year, because the decimal form of a year holds no `.`. */
  lemma SplitAlias(field: string, year: int)
    ensures SplitColumn(Alias(field, year)) == Ok((field, year))
  {
    IntStringRoundTrip(year);
    RSplitOnceOf(field, '.', IntToString(year));
    assert Alias(field, year) == field + ['.'] + IntToString(year);
  }

  const Employed: string := "unemployment.employed"
  const Unemployed: string := "unemployment.unemployed"

  /** The two legacy renames of step 4: each gains the `population.` prefix the other categories carry. */
  function RenameLegacy(category: string): string {
    if category == Employed || category == Unemployed then "population." + category else category
  }

  /** The regex `population.` matches at the start of `s`: the `.` stands for any character but a newline. */
  predicate PopulationAt(s: string) {
    |s| >= 11 && s[..10] == "population" && s[10] != '\n'
  }

  /** `str.replace('population.', '', regex=True)`: one left-to-right pass removing every non-overlapping match. */
  function StripPopulation(s: string): (r: string)
    ensures |r| <= |s|
    decreases |s|
  {
    if |s| == 0 then []
    else if PopulationAt(s) then StripPopulation(s[11..])
    else [s[0]] + StripPopulation(s[1..])
  }

  predicate ByAt(s: string) {
    |s| >= 3 && s[..3] == "by_"
  }

  /** `str.replace('by_', '', regex=True)`. */
  function StripBy(s: string): (r: string)
    ensures |r| <= |s|
    decreases |s|
  {
    if |s| == 0 then []
    else if ByAt(s) then StripBy(s[3..])
    else [s[0]] + StripBy(s[1..])
  }

  /** Step 4: the renames first, then the `population.` strip, then the `by_` strip. */
  function CleanCategory(category: string): string {
    StripBy(StripPopulation(RenameLegacy(category)))
  }

  /** A string without some letter of "population" holds no match and passes unchanged. */
  lemma {:induction false} StripPopulationMissingLetter(s: string, letter: char)
    requires letter in "population" && letter !in s
    ensures StripPopulation(s) == s
    decreases |s|
  {
    if |s| > 0 {
      assert letter !in s[1..] by {
        assert forall x :: x in s[1..] ==> x in s;
      }
      StripPopulationMissingLetter(s[1..], letter);
      assert s == [s[0]] + s[1..];
    }
  }

  /** A string without some letter of "by_" holds no match and passes unchanged. */
  lemma {:induction false} StripByMissingLetter(s: string, letter: char)
    requires letter in "by_" && letter !in s
    ensures StripBy(s) == s
    decreases |s|
  {
    if |s| > 0 {
      assert letter !in s[1..] by {
        assert forall x :: x in s[1..] ==> x in s;
      }
      StripByMissingLetter(s[1..], letter);
      assert s == [s[0]] + s[1..];
    }
  }

  /** The first replacement leaves a string unchanged exactly when the regex matches at no
      position of it: a match anywhere removes at least its eleven characters. */
  lemma StripPopulationUnchanged(s: string)
    ensures StripPopulation(s) == s <==> forall i :: 0 <= i < |s| ==> !PopulationAt(s[i..])
  {
    if forall i :: 0 <= i < |s| ==> !PopulationAt(s[i..]) {
      StripPopulationNoMatch(s);
    } else {
      var i :| 0 <= i < |s| && PopulationAt(s[i..]);
      StripPopulationShrinks(s, i);
    }
  }

  lemma {:induction false} StripPopulationNoMatch(s: string)
    requires forall i :: 0 <= i < |s| ==> !PopulationAt(s[i..])
    ensures StripPopulation(s) == s
    decreases |s|
  {
    if |s| > 0 {
      assert s[0..] == s;
      forall i | 0 <= i < |s[1..]| ensures !PopulationAt(s[1..][i..]) {
        assert s[1..][i..] == s[i + 1..];
      }
      StripPopulationNoMatch(s[1..]);
      assert s == [s[0]] + s[1..];
    }
  }

  lemma {:induction false} StripPopulationShrinks(s: string, i: int)
    requires 0 <= i < |s| && PopulationAt(s[i..])
    ensures |StripPopulation(s)| < |s|
    decreases |s|
  {
    if !PopulationAt(s) {
      assert i > 0 by { assert s[0..] == s; }
      assert s[1..][i - 1..] == s[i..];
      StripPopulationShrinks(s[1..], i - 1);
    }
  }

  /** The second replacement leaves a string unchanged exactly when `by_` occurs at no position of it. */
  lemma StripByUnchanged(s: string)
    ensures StripBy(s) == s <==> forall i :: 0 <= i < |s| ==> !ByAt(s[i..])
  {
    if forall i :: 0 <= i < |s| ==> !ByAt(s[i..]) {
      StripByNoMatch(s);
    } else {
      var i :| 0 <= i < |s| && ByAt(s[i..]);
      StripByShrinks(s, i);
    }
  }

  lemma {:induction false} StripByNoMatch(s: string)
    requires forall i :: 0 <= i < |s| ==> !ByAt(s[i..])
    ensures StripBy(s) == s
    decreases |s|
  {
    if |s| > 0 {
      assert s[0..] == s;
      forall i | 0 <= i < |s[1..]| ensures !ByAt(s[1..][i..]) {
        assert s[1..][i..] == s[i + 1..];
      }
      StripByNoMatch(s[1..]);
      assert s == [s[0]] + s[1..];
    }
  }

  lemma {:induction false} StripByShrinks(s: string, i: int)
    requires 0 <= i < |s| && ByAt(s[i..])
    ensures |StripBy(s)| < |s|
    decreases |s|
  {
    if !ByAt(s) {
      assert i > 0 by { assert s[0..] == s; }
      assert s[1..][i - 1..] == s[i..];
      StripByShrinks(s[1..], i - 1);
    }
  }

  /** A match of `population.` at the front is removed. */
  lemma StripPopulationFront(c: char, rest: string)
    requires c != '\n'
    ensures StripPopulation("population" + [c] + rest) == StripPopulation(rest)
  {
    var s := "population" + [c] + rest;
    assert s[..10] == "population" && s[10] == c;
    assert s[11..] == rest;
  }

  /** A match of `by_` at the front is removed. */
  lemma StripByFront(rest: string)
    ensures StripBy("by_" + rest) == StripBy(rest)
  {
    var s := "by_" + rest;
    assert s[..3] == "by_";
    assert s[3..] == rest;
  }

  /** A category of the form `population?by_rest` comes out as `rest` (for any character `?` but a
      newline), provided `rest` holds no `p` and no `b` that could start a further match. */
  lemma CleanPrefixedCategory(c: char, rest: string)
    requires c != '\n' && 'p' !in rest && 'b' !in rest
    ensures CleanCategory("population" + [c] + ("by_" + rest)) == rest
  {
    var s := "population" + [c] + ("by_" + rest);
    assert s[0] == 'p';
    assert RenameLegacy(s) == s;
    StripPopulationFront(c, "by_" + rest);
    assert 'p' !in "by_" + rest;
    StripPopulationMissingLetter("by_" + rest, 'p');
    StripByFront(rest);
    StripByMissingLetter(rest, 'b');
  }

  /** The age category loses its `population_` and `by_` prefixes. */
  lemma CleanAgeCategory()
    ensures CleanCategory("population_by_age.total.18_over") == "age.total.18_over"
  {
    var rest := "age.total.18_over";
    assert 'p' !in rest && 'b' !in rest;
    assert "population_by_age.total.18_over" == "population" + ['_'] + ("by_" + rest);
    CleanPrefixedCategory('_', rest);
  }

  /** A legacy category is renamed and then stripped back to its original name. */
  lemma CleanLegacyCategory(category: string)
    requires category == Employed || category == Unemployed
    ensures CleanCategory(category) == category
  {
    assert RenameLegacy(category) == "population" + ['.'] + category;
    if category == Employed {
      assert 'a' !in Employed && 'b' !in Employed;
    } else {
      assert 'a' !in Unemployed && 'b' !in Unemployed;
    }
    StripPopulatedName(category);
  }

  /** A name without `a` and `b` behind a `population.` prefix comes out as itself. */
  lemma StripPopulatedName(name: string)
    requires 'a' !in name && 'b' !in name
    ensures StripBy(StripPopulation("population" + ['.'] + name)) == name
  {
    StripPopulationFront('.', name);
    StripPopulationMissingLetter(name, 'a');
    StripByMissingLetter(name, 'b');
  }

  datatype Entry = Entry(state: string, county: string, category: string, year: int, value: Option<int>)

  /** One long row as an entry: the year parsed off its alias, the category cleaned. */
  function ToEntry(l: LongRow): Result<Entry, DemoError> {
    match SplitColumn(l.column)
    case Err(e) => Err(e)
    case Ok((category, year)) => Ok(Entry(l.state, l.county, CleanCategory(category), year, l.value))
  }

  /** Steps 3 and 4 over the long table: every row converted, or the error of the first alias
      whose year part is not an integer. */
  function Entries(ls: seq<LongRow>): Result<seq<Entry>, DemoError> {
    AllOk(ls, ToEntry)
  }

  /** An entry keeps the state, county and value of its long row, and takes the field and year
      the alias was built from. */
  lemma ToEntryOfAlias(state: string, county: string, field: string, year: int, value: Option<int>)
    ensures ToEntry(LongRow(state, county, Alias(field, year), value)) == Ok(Entry(state, county, CleanCategory(field), year, value))
  {
    SplitAlias(field, year);
  }

  // ---------------------------------------------------------------------------
  // Step 5: keep the years in [2011, 2020) and sort by (state, county, year)

  predicate YearInRange(year: int) {
    2011 <= year < 2020
  }

  predicate EntryInRange(e: Entry) {
    YearInRange(e.year)
  }

  function FilterYears(es: seq<Entry>): (r: seq<Entry>)
    ensures forall i :: 0 <= i < |r| ==> YearInRange(r[i].year)
  {
    Filter(es, EntryInRange)
  }

  /** Exactly the entries whose year lies in the window survive. */
  lemma FilterYearsMember(es: seq<Entry>, e: Entry)
    ensures e in FilterYears(es) <==> e in es && YearInRange(e.year)
  {
    FilterMember(es, EntryInRange, e);
  }

  datatype Key = Key(state: string, county: string, year: int)

  function KeyOf(e: Entry): Key {
    Key(e.state, e.county, e.year)
  }

  /** Lexicographic order on (state, county, year), strings compared as Python compares them. */
  predicate KeyLe(a: Key, b: Key) {
    if a.state != b.state then StrLe(a.state, b.state)
    else if a.county != b.county then StrLe(a.county, b.county)
    else a.year <= b.year
  }

  predicate EntryLe(a: Entry, b: Entry) {
    KeyLe(KeyOf(a), KeyOf(b))
  }

  lemma KeyLeTrans(a: Key, b: Key, c: Key)
    requires KeyLe(a, b) && KeyLe(b, c)
    ensures KeyLe(a, c)
  {
    StrLeRefl(a.state);
    StrLeRefl(b.state);
    StrLeRefl(a.county);
    StrLeRefl(b.county);
    if a.state != b.state || b.state != c.state {
      StrLeTrans(a.state, b.state, c.state);
      if a.state == c.state {
        StrLeAntisym(a.state, b.state);
      }
    } else if a.county != b.county || b.county != c.county {
      StrLeTrans(a.county, b.county, c.county);
      if a.county == c.county {
        StrLeAntisym(a.county, b.county);
      }
    }
  }

  /** The key order is a total order. */
  lemma KeyLeIsOrder()
    ensures Total(KeyLe) && Transitive(KeyLe) && Antisymmetric(KeyLe)
  {
    forall a: Key, b: Key ensures KeyLe(a, b) || KeyLe(b, a) {
      StrLeTotal(a.state, b.state);
      StrLeTotal(a.county, b.county);
    }
    forall a: Key, b: Key, c: Key | KeyLe(a, b) && KeyLe(b, c) ensures KeyLe(a, c) {
      KeyLeTrans(a, b, c);
    }
    forall a: Key, b: Key | KeyLe(a, b) && KeyLe(b, a) ensures a == b {
      if a.state != b.state {
        StrLeAntisym(a.state, b.state);
      } else if a.county != b.county {
        StrLeAntisym(a.county, b.county);
      }
    }
  }

  /** Entries compared by key form a total preorder. */
  lemma EntryLeIsPreorder()
    ensures Total(EntryLe) && Transitive(EntryLe)
  {
    KeyLeIsOrder();
    forall a: Entry, b: Entry ensures EntryLe(a, b) || EntryLe(b, a) {
      assert KeyLe(KeyOf(a), KeyOf(b)) || KeyLe(KeyOf(b), KeyOf(a));
    }
    forall a: Entry, b: Entry, c: Entry | EntryLe(a, b) && EntryLe(b, c) ensures EntryLe(a, c) {
      KeyLeTrans(KeyOf(a), KeyOf(b), KeyOf(c));
    }
  }

  lemma StrLeIsOrder()
    ensures Total(StrLe) && Transitive(StrLe) && Antisymmetric(StrLe)
  {
    forall a: string, b: string ensures StrLe(a, b) || StrLe(b, a) {
      StrLeTotal(a, b);
    }
    forall a: string, b: string, c: string | StrLe(a, b) && StrLe(b, c) ensures StrLe(a, c) {
      StrLeTrans(a, b, c);
    }
    forall a: string, b: string | StrLe(a, b) && StrLe(b, a) ensures a == b {
      StrLeAntisym(a, b);
    }
  }

  /** `sort_values(['state', 'county', 'year'])`, a stable sort on the key. */
  function SortEntries(es: seq<Entry>): (r: seq<Entry>)
    ensures multiset(r) == multiset(es)
  {
    SortBy(es, EntryLe)
  }

  /** The long table comes out sorted by key and holds the same entries. */
  lemma SortEntriesSorted(es: seq<Entry>)
    ensures SortedBy(SortEntries(es), EntryLe)
    ensures multiset(SortEntries(es)) == multiset(es)
  {
    EntryLeIsPreorder();
    SortBySorted(es, EntryLe);
  }

  // ---------------------------------------------------------------------------
  // Step 6: pivot to one row per (state, county, year), first non-null value per category

  predicate HasValue(e: Entry) {
    e.value.Some?
  }

  function CategoryOf(e: Entry): string {
    e.category
  }

  predicate InGroup(e: Entry, k: Key, c: string) {
    KeyOf(e) == k && e.category == c
  }

  /** Entry `i` belongs to group (`k`, `c`) and holds a value. */
  predicate HoldsAt(es: seq<Entry>, k: Key, c: string, i: int) {
    0 <= i < |es| && InGroup(es[i], k, c) && es[i].value.Some?
  }

  /** Entry `i` is the earliest entry of group (`k`, `c`) that holds a value. */
  predicate FirstHoldsAt(es: seq<Entry>, k: Key, c: string, i: int) {
    HoldsAt(es, k, c, i) && forall j :: 0 <= j < i ==> !HoldsAt(es, k, c, j)
  }

  /** `aggfunc='first'`: the first non-null value of the group, in the order of `es`. */
  function FirstValue(es: seq<Entry>, k: Key, c: string): Option<int> {
    if |es| == 0 then None
    else if InGroup(es[0], k, c) && es[0].value.Some? then es[0].value
    else FirstValue(es[1..], k, c)
  }

  /** The first value is null exactly when no entry of the group holds a value, and otherwise it
      is the value of the earliest entry of the group that holds one. */
  lemma {:induction false} FirstValueSpec(es: seq<Entry>, k: Key, c: string)
    ensures FirstValue(es, k, c).Some? <==> exists i :: HoldsAt(es, k, c, i)
    ensures FirstValue(es, k, c).Some? ==> exists i :: FirstHoldsAt(es, k, c, i) && es[i].value == FirstValue(es, k, c)
  {
    if |es| > 0 && HoldsAt(es, k, c, 0) {
      assert FirstHoldsAt(es, k, c, 0);
    } else if |es| > 0 {
      var tail := es[1..];
      FirstValueSpec(tail, k, c);
      forall i | 0 < i < |es| ensures HoldsAt(es, k, c, i) == HoldsAt(tail, k, c, i - 1) {
        assert es[i] == tail[i - 1];
      }
      if exists i :: HoldsAt(es, k, c, i) {
        var i :| HoldsAt(es, k, c, i);
        assert HoldsAt(tail, k, c, i - 1);
      }
      if FirstValue(es, k, c).Some? {
        var i :| FirstHoldsAt(tail, k, c, i) && tail[i].value == FirstValue(es, k, c);
        assert HoldsAt(es, k, c, i + 1) && es[i + 1].value == FirstValue(es, k, c);
        forall j | 0 < j < i + 1 ensures !HoldsAt(es, k, c, j) {
          assert !HoldsAt(tail, k, c, j - 1);
        }
        assert FirstHoldsAt(es, k, c, i + 1);
      }
    }
  }

  /** The first value of a group depends only on the group's own entries, in their order. */
  lemma {:induction false} FirstValueOfGroup(es: seq<Entry>, k: Key, c: string, g: Entry -> bool)
    requires forall e :: g(e) == InGroup(e, k, c)
    ensures FirstValue(es, k, c) == FirstValue(Filter(es, g), k, c)
  {
    if |es| > 0 {
      FirstValueOfGroup(es[1..], k, c, g);
      if g(es[0]) {
        var f := [es[0]] + Filter(es[1..], g);
        assert Filter(es, g) == f;
        assert f[0] == es[0] && f[1..] == Filter(es[1..], g);
      } else {
        assert Filter(es, g) == Filter(es[1..], g);
      }
    }
  }

  /** Sorting is stable, so every group keeps its first value. */
  lemma SortKeepsFirstValue(es: seq<Entry>, k: Key, c: string)
    ensures FirstValue(SortEntries(es), k, c) == FirstValue(es, k, c)
  {
    var g := e => InGroup(e, k, c);
    FirstValueOfGroup(SortEntries(es), k, c, g);
    FirstValueOfGroup(es, k, c, g);
    SortByStable(es, EntryLe, g);
  }

  /** The category columns of the pivot: the categories with some non-null value, sorted, each once. */
  function PivotCategories(es: seq<Entry>): seq<string> {
    Dedup(SortBy(Map(Filter(es, HasValue), CategoryOf), StrLe))
  }

  /** The row keys of the pivot: the keys with some non-null value, sorted, each once. */
  function PivotKeys(es: seq<Entry>): seq<Key> {
    Dedup(SortBy(Map(Filter(es, HasValue), KeyOf), KeyLe))
  }

  datatype WideRow = WideRow(state: string, county: string, year: int, cells: map<string, Option<int>>)

  datatype Wide = Wide(categories: seq<string>, rows: seq<WideRow>)

  function RowKey(r: WideRow): Key {
    Key(r.state, r.county, r.year)
  }

  function PivotRow(es: seq<Entry>, categories: seq<string>, k: Key): WideRow {
    WideRow(k.state, k.county, k.year, map c | c in categories :: FirstValue(es, k, c))
  }

  /** `pivot_table(index=['state', 'county', 'year'], columns='category', aggfunc='first')`
      followed by `reset_index`. */
  function Pivot(es: seq<Entry>): Wide {
    var categories := PivotCategories(es);
    var keys := PivotKeys(es);
    Wide(categories, seq(|keys|, i requires 0 <= i < |keys| => PivotRow(es, categories, keys[i])))
  }

  /** A well-formed wide table: every row has a cell for each category and no other. */
  ghost predicate WellFormed(w: Wide) {
    forall i :: 0 <= i < |w.rows| ==> w.rows[i].cells.Keys == set c | c in w.categories
  }

  /** Sorting and dropping repeats keeps exactly the values there were. */
  lemma DedupSortMember<T>(s: seq<T>, le: (T, T) -> bool, x: T)
    ensures x in Dedup(SortBy(s, le)) <==> x in s
  {
    var sorted := SortBy(s, le);
    DedupMember(sorted, x);
    assert x in sorted <==> x in multiset(sorted);
    assert x in s <==> x in multiset(s);
  }

  /** `f` of some entry that holds a value, found through `Map(Filter(es, HasValue), f)`. */
  lemma MapFilterMember<U>(es: seq<Entry>, f: Entry -> U, u: U)
    ensures u in Map(Filter(es, HasValue), f) <==> exists i :: 0 <= i < |es| && f(es[i]) == u && es[i].value.Some?
  {
    if u in Map(Filter(es, HasValue), f) {
      MapFilterSource(es, HasValue, f, u, Filter(es, HasValue));
    }
    if exists i :: 0 <= i < |es| && f(es[i]) == u && es[i].value.Some? {
      var i :| 0 <= i < |es| && f(es[i]) == u && es[i].value.Some?;
      MapFilterTarget(es, HasValue, f, i);
    }
  }

  lemma MapFilterSource<T, U>(s: seq<T>, p: T -> bool, f: T -> U, u: U, h: seq<T>)
    requires h == Filter(s, p) && u in Map(h, f)
    ensures exists i :: 0 <= i < |s| && f(s[i]) == u && p(s[i])
  {
    var m := Map(h, f);
    var j :| 0 <= j < |m| && m[j] == u;
    var x := h[j];
    assert x in h;
    FilterMember(s, p, x);
    var t :| 0 <= t < |s| && s[t] == x;
    assert f(s[t]) == u && p(s[t]);
  }

  lemma MapFilterTarget<T, U>(s: seq<T>, p: T -> bool, f: T -> U, i: int)
    requires 0 <= i < |s| && p(s[i])
    ensures f(s[i]) in Map(Filter(s, p), f)
  {
    var h := Filter(s, p);
    FilterMember(s, p, s[i]);
    var j :| 0 <= j < |h| && h[j] == s[i];
    assert Map(h, f)[j] == f(s[i]);
  }

  /** Row `i` of the pivot is the row of the `i`-th key. */
  lemma PivotRowKeys(es: seq<Entry>)
    ensures Pivot(es).categories == PivotCategories(es)
    ensures |Pivot(es).rows| == |PivotKeys(es)|
    ensures forall i :: 0 <= i < |PivotKeys(es)| ==> RowKey(Pivot(es).rows[i]) == PivotKeys(es)[i]
  {
  }

  lemma PivotRowsExactly(es: seq<Entry>, k: Key)
    ensures (exists i :: 0 <= i < |Pivot(es).rows| && RowKey(Pivot(es).rows[i]) == k)
        <==> (exists i :: 0 <= i < |es| && KeyOf(es[i]) == k && es[i].value.Some?)
  {
    var keys := PivotKeys(es);
    PivotRowKeys(es);
    KeysExactly(es, k);
    if k in keys {
      var t :| 0 <= t < |keys| && keys[t] == k;
      assert RowKey(Pivot(es).rows[t]) == k;
    }
  }

  lemma KeysExactly(es: seq<Entry>, k: Key)
    ensures k in PivotKeys(es) <==> exists i :: 0 <= i < |es| && KeyOf(es[i]) == k && es[i].value.Some?
  {
    DedupSortMember(Map(Filter(es, HasValue), KeyOf), KeyLe, k);
    MapFilterMember(es, KeyOf, k);
  }

  /** The pivot has a column for category `c` exactly when some entry of `c` holds a value. */
  lemma PivotCategoriesExactly(es: seq<Entry>, c: string)
    ensures c in Pivot(es).categories <==> exists i :: 0 <= i < |es| && es[i].category == c && es[i].value.Some?
  {
    DedupSortMember(Map(Filter(es, HasValue), CategoryOf), StrLe, c);
    MapFilterMember(es, CategoryOf, c);
  }

  /** At most one row per (state, county, year): the rows are strictly increasing by key,
      and the category columns are strictly increasing by name. */
  lemma PivotUniqueKeys(es: seq<Entry>)
    ensures StrictlySortedBy(Pivot(es).categories, StrLe)
    ensures forall i, j :: 0 <= i < j < |Pivot(es).rows| ==>
      KeyLe(RowKey(Pivot(es).rows[i]), RowKey(Pivot(es).rows[j])) && RowKey(Pivot(es).rows[i]) != RowKey(Pivot(es).rows[j])
    ensures WellFormed(Pivot(es))
  {
    PivotRowKeys(es);
    KeysStrictlySorted(es);
    CategoriesStrictlySorted(es);
  }

  lemma KeysStrictlySorted(es: seq<Entry>)
    ensures StrictlySortedBy(PivotKeys(es), KeyLe)
  {
    KeyLeIsOrder();
    SortBySorted(Map(Filter(es, HasValue), KeyOf), KeyLe);
    DedupStrictlySorted(SortBy(Map(Filter(es, HasValue), KeyOf), KeyLe), KeyLe);
  }

  lemma CategoriesStrictlySorted(es: seq<Entry>)
    ensures StrictlySortedBy(PivotCategories(es), StrLe)
  {
    StrLeIsOrder();
    SortBySorted(Map(Filter(es, HasValue), CategoryOf), StrLe);
    DedupStrictlySorted(SortBy(Map(Filter(es, HasValue), CategoryOf), StrLe), StrLe);
  }

  /** Each cell of the pivot holds the first value its group shows in the sorted long table,
      which is the first value the group shows in the unsorted one. */
  lemma PivotFirstValue(es: seq<Entry>)
    ensures forall i, c :: 0 <= i < |Pivot(SortEntries(es)).rows| && c in Pivot(SortEntries(es)).categories ==>
      Pivot(SortEntries(es)).rows[i].cells[c] == FirstValue(es, RowKey(Pivot(SortEntries(es)).rows[i]), c)
  {
    var sorted := SortEntries(es);
    var w := Pivot(sorted);
    forall i, c | 0 <= i < |w.rows| && c in w.categories
      ensures w.rows[i].cells[c] == FirstValue(es, RowKey(w.rows[i]), c)
    {
      var k := RowKey(w.rows[i]);
      assert k == PivotKeys(sorted)[i];
      SortKeepsFirstValue(es, k, c);
    }
  }

  /** Only years inside the window reach the pivot: when every entry's year lies in the
      window, so does every row's. */
  lemma PivotYearsInRange(es: seq<Entry>)
    requires forall i :: 0 <= i < |es| ==> YearInRange(es[i].year)
    ensures forall i :: 0 <= i < |Pivot(es).rows| ==> YearInRange(Pivot(es).rows[i].year)
  {
    forall i | 0 <= i < |Pivot(es).rows| ensures YearInRange(Pivot(es).rows[i].year) {
      var k := RowKey(Pivot(es).rows[i]);
      PivotRowsExactly(es, k);
      var t :| 0 <= t < |es| && KeyOf(es[t]) == k && es[t].value.Some?;
    }
  }

  /** The year window survives the sort. */
  lemma SortedYearsInRange(es: seq<Entry>)
    ensures forall i :: 0 <= i < |SortEntries(FilterYears(es))| ==> YearInRange(SortEntries(FilterYears(es))[i].year)
  {
    var f := FilterYears(es);
    var sorted := SortEntries(f);
    forall i | 0 <= i < |sorted| ensures YearInRange(sorted[i].year) {
      assert sorted[i] in multiset(sorted);
      assert sorted[i] in multiset(f);
      var t :| 0 <= t < |f| && f[t] == sorted[i];
    }
  }

  // ---------------------------------------------------------------------------
  // Step 7: fill every null with the median of the column within the county, or 0

  /** `(a + b) / 2` as a float, then `astype('int64')`, which truncates toward zero. */
  function HalfTruncated(x: int): int {
    if x >= 0 then x / 2 else -((-x) / 2)
  }

  predicate IntLe(a: int, b: int) {
    a <= b
  }

  /** `median` of integer values, truncated toward zero as `astype('int64')` does. */
  function Median(vs: seq<int>): int
    requires |vs| > 0
  {
    Middle(SortBy(vs, IntLe))
  }

  /** The middle value of a sorted sequence, or the truncated mean of the two middle values. */
  function Middle(s: seq<int>): int
    requires |s| > 0
  {
    var n := |s|;
    if n % 2 == 1 then s[n / 2] else HalfTruncated(s[n / 2 - 1] + s[n / 2])
  }

  /** `transform('median').fillna(0)`: a county without values falls back to 0. */
  function FillValue(vs: seq<int>): int {
    if |vs| == 0 then 0 else Median(vs)
  }

  lemma HalfTruncatedBetween(a: int, b: int)
    requires a <= b
    ensures a <= HalfTruncated(a + b) <= b
  {
  }

  /** The middle of a sorted sequence lies between its two middle elements. */
  lemma MiddleBetween(s: seq<int>)
    requires |s| > 0 && SortedBy(s, IntLe)
    ensures s[(|s| - 1) / 2] <= Middle(s) <= s[|s| / 2]
  {
    var n := |s|;
    if n % 2 == 0 {
      assert IntLe(s[n / 2 - 1], s[n / 2]);
      HalfTruncatedBetween(s[n / 2 - 1], s[n / 2]);
    }
  }

  /** Every element of a permutation of `vs` is an element of `vs`. */
  lemma ElementOfPermutation(vs: seq<int>, s: seq<int>, k: int)
    requires multiset(s) == multiset(vs) && 0 <= k < |s|
    ensures exists i :: 0 <= i < |vs| && vs[i] == s[k]
  {
    assert s[k] in multiset(vs);
    assert s[k] in vs;
  }

  /** The median lies between the smallest and the largest value. */
  lemma MedianBounds(vs: seq<int>)
    requires |vs| > 0
    ensures exists i :: 0 <= i < |vs| && vs[i] <= Median(vs)
    ensures exists i :: 0 <= i < |vs| && Median(vs) <= vs[i]
  {
    var s := SortBy(vs, IntLe);
    assert Total(IntLe) && Transitive(IntLe);
    SortBySorted(vs, IntLe);
    MiddleBetween(s);
    ElementOfPermutation(vs, s, (|s| - 1) / 2);
    ElementOfPermutation(vs, s, |s| / 2);
  }

  /** A single value is its own median. */
  lemma MedianSingleton(v: int)
    ensures Median([v]) == v
  {
    assert SortBy([v], IntLe) == [v];
  }

  /** The non-null values of column `c` in the rows of county `county` (`groupby('county')`). */
  predicate HasCountyValue(rows: seq<WideRow>, county: string, c: string, i: int) {
    0 <= i < |rows| && rows[i].county == county && c in rows[i].cells && rows[i].cells[c].Some?
  }

  function CountyValues(rows: seq<WideRow>, county: string, c: string): seq<int> {
    if |rows| == 0 then []
    else
      (if HasCountyValue(rows, county, c, 0) then [rows[0].cells[c].value] else []) + CountyValues(rows[1..], county, c)
  }

  /** The county has values to take a median of exactly when one of its rows holds a value in
      column `c`; otherwise the fill value is 0. */
  lemma {:induction false} CountyValuesEmpty(rows: seq<WideRow>, county: string, c: string)
    ensures |CountyValues(rows, county, c)| == 0 <==> forall i :: !HasCountyValue(rows, county, c, i)
  {
    if |rows| > 0 {
      CountyValuesEmpty(rows[1..], county, c);
      forall i | 0 < i < |rows| ensures HasCountyValue(rows, county, c, i) == HasCountyValue(rows[1..], county, c, i - 1) {
        assert rows[i] == rows[1..][i - 1];
      }
      forall i | 0 <= i < |rows| - 1 ensures HasCountyValue(rows[1..], county, c, i) == HasCountyValue(rows, county, c, i + 1) {
        assert rows[i + 1] == rows[1..][i];
      }
      if !HasCountyValue(rows, county, c, 0) && exists i :: HasCountyValue(rows, county, c, i) {
        var i :| HasCountyValue(rows, county, c, i);
        assert HasCountyValue(rows[1..], county, c, i - 1);
      }
    }
  }

  /** The fill value of a county is 0 when it has no value in the column, and the median of its
      values otherwise. */
  lemma FillValueOfCounty(rows: seq<WideRow>, county: string, c: string)
    ensures (forall i :: !HasCountyValue(rows, county, c, i)) ==> FillValue(CountyValues(rows, county, c)) == 0
    ensures (exists i :: HasCountyValue(rows, county, c, i)) ==>
      |CountyValues(rows, county, c)| > 0 && FillValue(CountyValues(rows, county, c)) == Median(CountyValues(rows, county, c))
  {
    CountyValuesEmpty(rows, county, c);
  }

  /** Rows that agree on counties and on column `c` give the same county values. */
  lemma {:induction false} CountyValuesAgree(r1: seq<WideRow>, r2: seq<WideRow>, county: string, c: string)
    requires |r1| == |r2|
    requires forall i :: 0 <= i < |r1| ==> r1[i].county == r2[i].county && (c in r1[i].cells <==> c in r2[i].cells)
    requires forall i :: 0 <= i < |r1| && c in r1[i].cells ==> r1[i].cells[c] == r2[i].cells[c]
    ensures CountyValues(r1, county, c) == CountyValues(r2, county, c)
  {
    if |r1| > 0 {
      CountyValuesAgree(r1[1..], r2[1..], county, c);
    }
  }

  function FillRow(r: WideRow, c: string, fill: int): WideRow {
    if c in r.cells && r.cells[c].None? then r.(cells := r.cells[c := Some(fill)]) else r
  }

  /** One pass of the imputation loop: column `c` filled from its own per-county medians. */
  function FillColumn(w: Wide, c: string): Wide {
    Wide(w.categories, seq(|w.rows|, i requires 0 <= i < |w.rows| =>
      FillRow(w.rows[i], c, FillValue(CountyValues(w.rows, w.rows[i].county, c)))))
  }

  /** The imputation loop over the columns `cs`, in order. */
  function ImputeColumns(w: Wide, cs: seq<string>): Wide
    decreases |cs|
  {
    if |cs| == 0 then w else ImputeColumns(FillColumn(w, cs[0]), cs[1..])
  }

  /** Step 7 over every category column (the `year` column never holds a null). */
  function Impute(w: Wide): Wide {
    ImputeColumns(w, w.categories)
  }

  /** What the imputation makes of cell `(i, c)`: a value stays, a null in one of the columns
      `cs` becomes the fill value computed from the original column. */
  function ImputedCell(w: Wide, i: int, c: string, cs: seq<string>): Option<int>
    requires 0 <= i < |w.rows| && c in w.rows[i].cells
  {
    if c !in cs || w.rows[i].cells[c].Some? then w.rows[i].cells[c]
    else Some(FillValue(CountyValues(w.rows, w.rows[i].county, c)))
  }

  /** `res` is `w` with the columns `cs` imputed, row by row and cell by cell. */
  ghost predicate ImputedFrom(w: Wide, res: Wide, cs: seq<string>) {
    res.categories == w.categories && |res.rows| == |w.rows| &&
    forall i :: 0 <= i < |w.rows| ==>
      res.rows[i].state == w.rows[i].state && res.rows[i].county == w.rows[i].county &&
      res.rows[i].year == w.rows[i].year && res.rows[i].cells.Keys == w.rows[i].cells.Keys &&
      forall c :: c in w.rows[i].cells ==> res.rows[i].cells[c] == ImputedCell(w, i, c, cs)
  }

  lemma FillColumnCells(w: Wide, c: string)
    ensures ImputedFrom(w, FillColumn(w, c), [c])
  {
    var res := FillColumn(w, c);
    forall i | 0 <= i < |w.rows|
      ensures res.rows[i].cells.Keys == w.rows[i].cells.Keys
      ensures forall d :: d in w.rows[i].cells ==> res.rows[i].cells[d] == ImputedCell(w, i, d, [c])
    {
      var r := w.rows[i];
      var fill := FillValue(CountyValues(w.rows, r.county, c));
      assert res.rows[i] == FillRow(r, c, fill);
      FillRowCells(r, c, fill);
      forall d | d in r.cells ensures res.rows[i].cells[d] == ImputedCell(w, i, d, [c]) {
        assert d in [c] <==> d == c;
      }
    }
  }

  lemma FillRowCells(r: WideRow, c: string, fill: int)
    ensures FillRow(r, c, fill).cells.Keys == r.cells.Keys
    ensures forall d :: d in r.cells ==>
      FillRow(r, c, fill).cells[d] == if d == c && r.cells[d].None? then Some(fill) else r.cells[d]
  {
  }

  /** Filling one column leaves the county values of every other column as they were. */
  lemma FillColumnKeepsOthers(w: Wide, c: string, d: string, county: string)
    requires d != c
    ensures CountyValues(FillColumn(w, c).rows, county, d) == CountyValues(w.rows, county, d)
  {
    var rows := FillColumn(w, c).rows;
    forall i | 0 <= i < |rows|
      ensures rows[i].county == w.rows[i].county && (d in rows[i].cells <==> d in w.rows[i].cells)
      ensures d in rows[i].cells ==> rows[i].cells[d] == w.rows[i].cells[d]
    {
      var r := w.rows[i];
      var fill := FillValue(CountyValues(w.rows, r.county, c));
      assert rows[i] == FillRow(r, c, fill);
      FillRowKeepsOthers(r, c, fill, d);
    }
    CountyValuesAgree(rows, w.rows, county, d);
  }

  lemma FillRowKeepsOthers(r: WideRow, c: string, fill: int, d: string)
    requires d != c
    ensures FillRow(r, c, fill).county == r.county && FillRow(r, c, fill).cells.Keys == r.cells.Keys
    ensures d in r.cells ==> FillRow(r, c, fill).cells[d] == r.cells[d]
  {
  }

  lemma {:induction false} ImputeColumnsCells(w: Wide, cs: seq<string>)
    requires forall i, j :: 0 <= i < j < |cs| ==> cs[i] != cs[j]
    ensures ImputedFrom(w, ImputeColumns(w, cs), cs)
    decreases |cs|
  {
    if |cs| > 0 {
      var w1 := FillColumn(w, cs[0]);
      var tail := cs[1..];
      FillColumnCells(w, cs[0]);
      ImputeColumnsCells(w1, tail);
      var res := ImputeColumns(w1, tail);
      assert res == ImputeColumns(w, cs);
      forall i | 0 <= i < |w.rows|
        ensures forall c :: c in w.rows[i].cells ==> res.rows[i].cells[c] == ImputedCell(w, i, c, cs)
      {
        forall c | c in w.rows[i].cells
          ensures res.rows[i].cells[c] == ImputedCell(w, i, c, cs)
        {
          assert res.rows[i].cells[c] == ImputedCell(w1, i, c, tail);
          assert w1.rows[i].cells[c] == ImputedCell(w, i, c, [cs[0]]);
          if c == cs[0] {
            assert c !in tail;
          } else if c in tail {
            FillColumnKeepsOthers(w, cs[0], c, w.rows[i].county);
          }
        }
      }
    }
  }

  /** Imputation keeps every value, fills every null of a category column from the original
      column of its county (0 when the county has no value there), and leaves no null behind. */
  lemma ImputeCells(w: Wide)
    requires forall i, j :: 0 <= i < j < |w.categories| ==> w.categories[i] != w.categories[j]
    ensures ImputedFrom(w, Impute(w), w.categories)
    ensures forall i, c :: 0 <= i < |w.rows| && c in w.categories && c in w.rows[i].cells ==> Impute(w).rows[i].cells[c].Some?
  {
    ImputeColumnsCells(w, w.categories);
  }

  /** After imputation there is nothing left to fill: a second pass changes nothing. */
  lemma ImputeIdempotent(w: Wide)
    requires forall i, j :: 0 <= i < j < |w.categories| ==> w.categories[i] != w.categories[j]
    ensures Impute(Impute(w)) == Impute(w)
  {
    var w1 := Impute(w);
    ImputeCells(w);
    ImputeCells(w1);
    ImputedWithoutNulls(w1, Impute(w1), w1.categories);
  }

  /** Imputing columns that hold no null gives back the same table. */
  lemma ImputedWithoutNulls(w: Wide, res: Wide, cs: seq<string>)
    requires ImputedFrom(w, res, cs)
    requires forall i, c :: 0 <= i < |w.rows| && c in cs && c in w.rows[i].cells ==> w.rows[i].cells[c].Some?
    ensures res == w
  {
    forall i | 0 <= i < |w.rows| ensures res.rows[i] == w.rows[i] {
      assert res.rows[i].cells == w.rows[i].cells;
    }
    assert res.rows == w.rows;
  }

  // ---------------------------------------------------------------------------
  // Step 8: drop the county column

  datatype DemoRow = DemoRow(state: string, year: int, cells: map<string, Option<int>>)

  datatype DemoTable = DemoTable(categories: seq<string>, rows: seq<DemoRow>)

  function DropCountyRow(r: WideRow): DemoRow {
    DemoRow(r.state, r.year, r.cells)
  }

  function DropCounty(w: Wide): (t: DemoTable)
    ensures t.categories == w.categories && |t.rows| == |w.rows|
    ensures forall i :: 0 <= i < |w.rows| ==> t.rows[i] == DemoRow(w.rows[i].state, w.rows[i].year, w.rows[i].cells)
  {
    DemoTable(w.categories, Map(w.rows, DropCountyRow))
  }
}
