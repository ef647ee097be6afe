/**
 * src/marimo_extra/utils.py: tag substitution for console messages and the index
 * table helpers. A pandas DataFrame is a list of column names and a list of rows;
 * a row maps column names to cells, and a column absent from a row is a missing
 * (NaN) cell.
 */
module Utils {
  import opened Outcomes
  import opened Text
  import opened Seqs

  /** One row of a table: column name to cell text; a missing column is a NaN cell. */
  type Record = map<string, string>

  /** A DataFrame read from an index CSV file. */
  datatype Table = Table(columns: seq<string>, rows: seq<Record>)

  predicate Distinct(s: seq<string>) {
    forall i, j :: 0 <= i < j < |s| ==> s[i] != s[j]
  }

  function ColumnSet(columns: seq<string>): set<string> {
    set c | c in columns
  }

  lemma ColumnSetSnoc(columns: seq<string>, c: string)
    ensures ColumnSet(columns + [c]) == ColumnSet(columns) + {c}
  {
    assert forall x :: x in columns + [c] <==> x in columns || x == c;
  }

  /** The record that a positional list of cell values makes under `columns`. */
  function RowRecord(columns: seq<string>, values: seq<string>): (r: Record)
    requires Distinct(columns) && |values| == |columns|
    ensures r.Keys == ColumnSet(columns)
    ensures forall i :: 0 <= i < |columns| ==> r[columns[i]] == values[i]
  {
    map i | 0 <= i < |columns| :: columns[i] := values[i]
  }

  /** A DataFrame that rows are appended to in place. */
  class Frame {
    var columns: seq<string>
    var rows: seq<Record>

    ghost predicate Valid()
      reads this
    {
      && Distinct(columns)
      && forall r :: r in rows ==> r.Keys <= ColumnSet(columns)
    }

    /** `pd.DataFrame(columns=columns)`: an empty frame. */
    constructor (columns: seq<string>)
      requires Distinct(columns)
      ensures Valid() && this.columns == columns && rows == []
    {
      this.columns := columns;
      rows := [];
    }

    /**
     * `add_row_csv`: `out.loc[len(out)] = new_row` appends one row holding the values
     * in column order; a list of the wrong length raises ValueError and changes nothing.
     */
    method AddRow(newRow: seq<string>) returns (r: Result<()>)
      requires Valid()
      modifies this
      ensures Valid() && columns == old(columns)
      ensures r.Success? <==> |newRow| == |columns|
      ensures r.Failure? ==> r.error == ValueError(MismatchedColumns) && rows == old(rows)
      ensures r.Success? ==> rows == old(rows) + [RowRecord(columns, newRow)]
    {
      if |newRow| != |columns| {
        return Failure(ValueError(MismatchedColumns));
      }
      rows := rows + [RowRecord(columns, newRow)];
      return Success(());
    }
  }

  const MismatchedColumns := "cannot set a row with mismatched columns"

  /** After `AddRow`, the new last row reads back the given values, column by column. */
  lemma AddedRowReadsBack(columns: seq<string>, rows: seq<Record>, newRow: seq<string>)
    requires Distinct(columns) && |newRow| == |columns|
    ensures var after := rows + [RowRecord(columns, newRow)];
      && |after| == |rows| + 1
      && after[..|rows|] == rows
      && forall i :: 0 <= i < |columns| ==> after[|rows|][columns[i]] == newRow[i]
  {
    var after := rows + [RowRecord(columns, newRow)];
    assert after[..|rows|] == rows;
  }

  /** The style tags of `rich_print` and their terminal escape codes, in dictionary order. */
  const Colors: seq<(string, string)> := [
    ("[red]", "\U{1B}[31m"),
    ("[green]", "\U{1B}[32m"),
    ("[yellow]", "\U{1B}[33m"),
    ("[blue]", "\U{1B}[34m"),
    ("[magenta]", "\U{1B}[35m"),
    ("[cyan]", "\U{1B}[36m"),
    ("[white]", "\U{1B}[37m"),
    ("[end]", "\U{1B}[0m"),
    ("[bold]", "\U{1B}[1m"),
    ("[underline]", "\U{1B}[4m"),
    ("[italic]", "\U{1B}[3m")
  ]

  predicate TagsNonEmpty(tags: seq<(string, string)>) {
    forall i :: 0 <= i < |tags| ==> |tags[i].0| > 0
  }

  /** Each tag replaced everywhere by its code, one tag after the other in list order. */
  function Substitute(tags: seq<(string, string)>, message: string): string
    requires TagsNonEmpty(tags)
    decreases |tags|
  {
    if tags == [] then message
    else Substitute(tags[1..], Replace(message, tags[0].0, tags[0].1))
  }

  /** A message that contains none of the tags is left as it is. */
  lemma {:induction false} SubstituteNoTag(tags: seq<(string, string)>, message: string)
    requires TagsNonEmpty(tags)
    requires forall i :: 0 <= i < |tags| ==> !Contains(message, tags[i].0)
    ensures Substitute(tags, message) == message
    decreases |tags|
  {
    if tags != [] {
      ReplaceAbsent(message, tags[0].0, tags[0].1);
      SubstituteNoTag(tags[1..], message);
    }
  }

  /** Character `c` occurs in one of the codes. */
  predicate InSomeCode(tags: seq<(string, string)>, c: char) {
    exists i :: 0 <= i < |tags| && c in tags[i].1
  }

  /** Substitution brings in no character found neither in the message nor in a code. */
  lemma {:induction false} SubstituteChars(tags: seq<(string, string)>, message: string)
    requires TagsNonEmpty(tags)
    ensures var r := Substitute(tags, message);
      forall k :: 0 <= k < |r| ==> r[k] in message || InSomeCode(tags, r[k])
    decreases |tags|
  {
    if tags != [] {
      var once := Replace(message, tags[0].0, tags[0].1);
      var r := Substitute(tags, message);
      ReplaceChars(message, tags[0].0, tags[0].1);
      SubstituteChars(tags[1..], once);
      assert r == Substitute(tags[1..], once);
      forall k | 0 <= k < |r| ensures r[k] in message || InSomeCode(tags, r[k]) {
        var c := r[k];
        if InSomeCode(tags[1..], c) {
          var i :| 0 <= i < |tags[1..]| && c in tags[1..][i].1;
          assert tags[1..][i] == tags[i + 1];
        } else if c !in message {
          assert c in once;
          var j :| 0 <= j < |once| && once[j] == c;
          assert once[j] in message || once[j] in tags[0].1;
          assert InSomeCode(tags, c);
        }
      }
    }
  }

  lemma ColorTagsNonEmpty()
    ensures TagsNonEmpty(Colors)
  {
  }

  lemma TagsNonEmptySuffix(tags: seq<(string, string)>, i: nat)
    requires TagsNonEmpty(tags) && i <= |tags|
    ensures TagsNonEmpty(tags[i..])
  {
    assert forall k :: 0 <= k < |tags| - i ==> tags[i..][k] == tags[i + k];
  }

  /** `rich_print`: the text it prints for `message`. */
  method RichPrint(message: string) returns (printed: string)
    ensures printed == Substitute(Colors, message)
    ensures (forall i :: 0 <= i < |Colors| ==> !Contains(message, Colors[i].0)) ==> printed == message
  {
    ColorTagsNonEmpty();
    printed := message;
    for i := 0 to |Colors|
      invariant Substitute(Colors[i..], printed) == Substitute(Colors, message)
    {
      TagsNonEmptySuffix(Colors, i);
      TagsNonEmptySuffix(Colors, i + 1);
      assert Colors[i..][1..] == Colors[i + 1..];
      printed := Replace(printed, Colors[i].0, Colors[i].1);
    }
    if forall i :: 0 <= i < |Colors| ==> !Contains(message, Colors[i].0) {
      SubstituteNoTag(Colors, message);
    }
  }

  /** The items of a `{column: excluded values}` dictionary, in insertion order. */
  type Exclusions = seq<(string, seq<string>)>

  /** The default `filter_out_data`: leave out the row named "Home". */
  const DefaultExclusions: Exclusions := [("Name", ["Home"])]

  /** `notebooks[column].isin(values)` for one row; a NaN cell is never in the list. */
  predicate Excluded(row: Record, column: string, values: seq<string>) {
    column in row && row[column] in values
  }

  /** The row passes every exclusion. */
  predicate Keeps(filter: Exclusions, row: Record) {
    forall i :: 0 <= i < |filter| ==> !Excluded(row, filter[i].0, filter[i].1)
  }

  function KeepsRow(filter: Exclusions): Record -> bool {
    row => Keeps(filter, row)
  }

  /** The rows `_filter_out_data` is meant to keep, in table order. */
  function KeptRows(rows: seq<Record>, filter: Exclusions): seq<Record> {
    Filter(KeepsRow(filter), rows)
  }

  /** Position `j` of `rows` holds a row that passes all of `filter`. */
  function KeepsAt(rows: seq<Record>, filter: Exclusions): int -> bool {
    AtIndex(rows, KeepsRow(filter))
  }

  /** `~notebooks[column].isin(values)` as a predicate on the positions of `rows`. */
  function PassesAt(rows: seq<Record>, column: string, values: seq<string>): int -> bool {
    j => 0 <= j < |rows| && !Excluded(rows[j], column, values)
  }

  /**
   * The position of the first key that is not a column, or `|keys|` when all are:
   * selecting that column raises KeyError.
   */
  function FirstMissing(keys: seq<string>, columns: seq<string>): (k: nat)
    ensures k <= |keys|
    ensures forall j :: 0 <= j < k ==> keys[j] in columns
    ensures k < |keys| ==> keys[k] !in columns
  {
    if keys == [] || keys[0] !in columns then 0 else 1 + FirstMissing(keys[1..], columns)
  }

  /** The first missing key is the one after a run of present keys. */
  lemma FirstMissingIs(keys: seq<string>, columns: seq<string>, i: nat)
    requires i <= |keys| && (forall j :: 0 <= j < i ==> keys[j] in columns)
    requires i < |keys| ==> keys[i] !in columns
    ensures FirstMissing(keys, columns) == i
  {
  }

  /** With no exclusions every row is kept. */
  lemma KeptRowsNoExclusions(rows: seq<Record>)
    ensures KeptRows(rows, []) == rows
  {
    FilterAll(KeepsRow([]), rows);
  }

  /** Before any exclusion the index holds every position. */
  lemma KeepsAtNone(rows: seq<Record>)
    ensures Filter(KeepsAt(rows, []), Range(0, |rows|)) == Range(0, |rows|)
  {
    var r := Range(0, |rows|);
    forall j | j in r ensures KeepsAt(rows, [])(j) {
      var k :| 0 <= k < |r| && r[k] == j;
    }
    FilterAll(KeepsAt(rows, []), r);
  }

  /** Passing exclusions `0..i` is passing exclusions `0..i-1` and exclusion `i`. */
  lemma KeepsExtend(filter: Exclusions, i: nat, row: Record)
    requires i < |filter|
    ensures Keeps(filter[..i + 1], row) == (Keeps(filter[..i], row) && !Excluded(row, filter[i].0, filter[i].1))
  {
    assert filter[..i + 1] == filter[..i] + [filter[i]];
  }

  /** Narrowing the index by exclusion `i` gives the positions passing exclusions `0..i`. */
  lemma NarrowStep(rows: seq<Record>, filter: Exclusions, i: nat)
    requires i < |filter|
    ensures Filter(PassesAt(rows, filter[i].0, filter[i].1), Filter(KeepsAt(rows, filter[..i]), Range(0, |rows|)))
         == Filter(KeepsAt(rows, filter[..i + 1]), Range(0, |rows|))
  {
    var before := KeepsAt(rows, filter[..i]);
    var pass := PassesAt(rows, filter[i].0, filter[i].1);
    var r := Range(0, |rows|);
    FilterTwice(before, pass, r);
    forall j | j in r ensures And(before, pass)(j) == KeepsAt(rows, filter[..i + 1])(j) {
      if 0 <= j < |rows| {
        KeepsExtend(filter, i, rows[j]);
      }
    }
    FilterCongruent(And(before, pass), KeepsAt(rows, filter[..i + 1]), r);
  }

  /** Picking the surviving positions gives the kept rows. */
  lemma PickKept(rows: seq<Record>, filter: Exclusions)
    ensures var index := Filter(KeepsAt(rows, filter), Range(0, |rows|));
      && (forall k :: 0 <= k < |index| ==> 0 <= index[k] < |rows|)
      && Pick(rows, index) == KeptRows(rows, filter)
  {
    PickFilteredRange(rows, KeepsRow(filter), 0);
    assert rows[0..] == rows;
  }

  /**
   * `_filter_out_data`: keeps exactly the rows that pass every exclusion, in their
   * order; a key that is not a column raises KeyError. The index of kept rows is
   * narrowed one key at a time; each key is checked against the rows still kept.
   */
  method FilterOutData(t: Table, filter: Exclusions) returns (r: Result<Table>)
    ensures var k := FirstMissing(Firsts(filter), t.columns);
      if k < |filter| then r == Failure(KeyError(filter[k].0))
      else r == Success(Table(t.columns, KeptRows(t.rows, filter)))
  {
    var rows := t.rows;
    var index := Range(0, |rows|);
    KeepsAtNone(rows);
    assert filter[..0] == [];
    for i := 0 to |filter|
      invariant forall j :: 0 <= j < i ==> filter[j].0 in t.columns
      invariant index == Filter(KeepsAt(rows, filter[..i]), Range(0, |rows|))
    {
      var (column, values) := filter[i];
      if column !in t.columns {
        FirstMissingIs(Firsts(filter), t.columns, i);
        return Failure(KeyError(column));
      }
      NarrowStep(rows, filter, i);
      index := Filter(PassesAt(rows, column, values), index);
    }
    assert filter[..|filter|] == filter;
    FirstMissingIs(Firsts(filter), t.columns, |filter|);
    PickKept(rows, filter);
    return Success(Table(t.columns, Pick(rows, index)));
  }

  /**
   * The loop of `_filter_out_data` as written: the mask for each key is computed over
   * ALL rows of the table and then used to index the already narrowed index, which
   * raises IndexError as soon as the lengths differ.
   */
  function FilterIndexAsWritten(t: Table, filter: Exclusions, index: seq<int>): (r: Result<seq<int>>)
    ensures r.Success? ==> forall k :: 0 <= k < |r.value| ==> r.value[k] in index
    ensures r.Failure? ==> r.error == IndexError || (r.error.KeyError? && r.error.key in Firsts(filter))
    decreases |filter|
  {
    if filter == [] then Success(index)
    else if filter[0].0 !in t.columns then Failure(KeyError(filter[0].0))
    else if |index| != |t.rows| then Failure(IndexError)
    else
      var pass := PassesAt(t.rows, filter[0].0, filter[0].1);
      FilterAt(pass, Range(0, |t.rows|));
      var narrowed := Pick(index, Filter(pass, Range(0, |t.rows|)));
      var r := FilterIndexAsWritten(t, filter[1..], narrowed);
      assert forall k :: 0 <= k < |narrowed| ==> narrowed[k] in index;
      assert Firsts(filter)[1..] == Firsts(filter[1..]);
      r
  }

  /** Exclusion `f` removes no row of `rows`. */
  predicate DropsNone(rows: seq<Record>, f: (string, seq<string>)) {
    forall j :: 0 <= j < |rows| ==> !Excluded(rows[j], f.0, f.1)
  }

  /**
   * When the loop as written gets through: every key is a column and no key but the
   * last removes a row, since after the first removal the next mask no longer fits.
   */
  predicate FilterAsWrittenSucceeds(t: Table, filter: Exclusions) {
    && FirstMissing(Firsts(filter), t.columns) == |filter|
    && forall i :: 0 <= i < |filter| - 1 ==> DropsNone(t.rows, filter[i])
  }

  /**
   * `_filter_out_data` as written: the rows at the index the loop leaves. It succeeds
   * exactly when `FilterAsWrittenSucceeds`, and then keeps the intended rows.
   */
  function FilterOutDataAsWritten(t: Table, filter: Exclusions): (r: Result<seq<Record>>)
    ensures r.Success? <==> FilterAsWrittenSucceeds(t, filter)
    ensures r.Success? ==> r.value == KeptRows(t.rows, filter)
    ensures r.Failure? ==> r.error == IndexError || (r.error.KeyError? && r.error.key in Firsts(filter))
  {
    var all := Range(0, |t.rows|);
    FilterAsWrittenFromRange(t, filter);
    var index :- FilterIndexAsWritten(t, filter, all);
    Success(Pick(t.rows, index))
  }

  /**
   * The loop as written, started on the whole index, succeeds exactly when
   * `FilterAsWrittenSucceeds` and then leaves the positions of the intended rows.
   */
  lemma {:induction false} FilterAsWrittenFromRange(t: Table, filter: Exclusions)
    ensures var r := FilterIndexAsWritten(t, filter, Range(0, |t.rows|));
      && (r.Success? <==> FilterAsWrittenSucceeds(t, filter))
      && (r.Success? ==> (forall k :: 0 <= k < |r.value| ==> 0 <= r.value[k] < |t.rows|)
                         && Pick(t.rows, r.value) == KeptRows(t.rows, filter))
    decreases |filter|
  {
    var all := Range(0, |t.rows|);
    var r := FilterIndexAsWritten(t, filter, all);
    if filter == [] {
      assert Pick(t.rows, all) == t.rows;
      KeptRowsNoExclusions(t.rows);
    } else if filter[0].0 !in t.columns {
      assert Firsts(filter)[0] == filter[0].0;
    } else if |filter| == 1 {
      assert filter == [(filter[0].0, filter[0].1)];
      FilterOneKeyAsWrittenAgrees(t, filter[0].0, filter[0].1);
      assert FirstMissing(Firsts(filter), t.columns) == 1 by {
        FirstMissingIs(Firsts(filter), t.columns, 1);
      }
    } else {
      FilterAsWrittenFirstKey(t, filter);
      if DropsNone(t.rows, filter[0]) {
        FilterAsWrittenFromRange(t, filter[1..]);
        FilterAsWrittenShift(t, filter);
        KeptRowsShift(t.rows, filter);
      }
    }
  }

  /**
   * The first of several keys, as written: a key that removes no row leaves the whole
   * index for the rest; one that removes a row makes the next step fail.
   */
  lemma FilterAsWrittenFirstKey(t: Table, filter: Exclusions)
    requires |filter| >= 2 && filter[0].0 in t.columns
    ensures var all := Range(0, |t.rows|);
      FilterIndexAsWritten(t, filter, all) ==
        if DropsNone(t.rows, filter[0]) then FilterIndexAsWritten(t, filter[1..], all)
        else if filter[1].0 in t.columns then Failure(IndexError)
        else Failure(KeyError(filter[1].0))
  {
    var all := Range(0, |t.rows|);
    var pass := PassesAt(t.rows, filter[0].0, filter[0].1);
    var mask := Filter(pass, all);
    FilterAt(pass, all);
    assert Pick(all, mask) == mask;
    assert filter[1..][0] == filter[1];
    if DropsNone(t.rows, filter[0]) {
      FilterAll(pass, all);
    } else {
      var j :| 0 <= j < |t.rows| && Excluded(t.rows[j], filter[0].0, filter[0].1);
      assert all[j] == j;
      FilterNotAll(pass, all, j);
    }
  }

  /** A first key that is a column and removes no row can be dropped from the success condition. */
  lemma FilterAsWrittenShift(t: Table, filter: Exclusions)
    requires |filter| >= 2 && filter[0].0 in t.columns && DropsNone(t.rows, filter[0])
    ensures FilterAsWrittenSucceeds(t, filter) == FilterAsWrittenSucceeds(t, filter[1..])
  {
    assert Firsts(filter)[1..] == Firsts(filter[1..]);
    assert forall i :: 0 <= i < |filter| - 2 ==> filter[1..][i] == filter[i + 1];
  }

  /** A first key that removes no row can be dropped from the intended selection. */
  lemma KeptRowsShift(rows: seq<Record>, filter: Exclusions)
    requires filter != [] && DropsNone(rows, filter[0])
    ensures KeptRows(rows, filter) == KeptRows(rows, filter[1..])
  {
    forall row | row in rows ensures KeepsRow(filter)(row) == KeepsRow(filter[1..])(row) {
      var j :| 0 <= j < |rows| && rows[j] == row;
      assert forall i :: 0 <= i < |filter| - 1 ==> filter[1..][i] == filter[i + 1];
    }
    FilterCongruent(KeepsRow(filter), KeepsRow(filter[1..]), rows);
  }

  /** A table with a "Home" row, an app and a notebook. */
  const SampleTable := Table(["Name", "Type"], [
    map["Name" := "Home", "Type" := "html"],
    map["Name" := "Fibonacci", "Type" := "apps"],
    map["Name" := "Plot", "Type" := "notebooks"]
  ])

  const SampleExclusions: Exclusions := [("Name", ["Home"]), ("Type", ["apps"])]

  /** A predicate that fails somewhere in `s` drops at least one element. */
  lemma {:induction false} FilterNotAll<T>(p: T -> bool, s: seq<T>, k: nat)
    requires k < |s| && !p(s[k])
    ensures |Filter(p, s)| < |s|
  {
    if k > 0 {
      FilterNotAll(p, s[1..], k - 1);
    }
  }

  /**
   * Two exclusions, the first of which removes the "Home" row: as written the second
   * mask (three entries) no longer fits the index (two entries left).
   */
  lemma FilterTwoKeysAsWrittenFails()
    ensures FilterIndexAsWritten(SampleTable, SampleExclusions, Range(0, 3)) == Failure(IndexError)
  {
    var pass := PassesAt(SampleTable.rows, "Name", ["Home"]);
    assert Range(0, 3)[0] == 0;
    assert !pass(0);
    FilterNotAll(pass, Range(0, 3), 0);
    assert SampleExclusions[1..] == [("Type", ["apps"])];
  }

  /** The same two exclusions, applied as intended, keep only the "Plot" row. */
  lemma FilterTwoKeysIntended()
    ensures KeptRows(SampleTable.rows, SampleExclusions) == [SampleTable.rows[2]]
  {
    var rows := SampleTable.rows;
    var keep := KeepsRow(SampleExclusions);
    assert !keep(rows[0]) by { assert Excluded(rows[0], SampleExclusions[0].0, SampleExclusions[0].1); }
    assert !keep(rows[1]) by { assert Excluded(rows[1], SampleExclusions[1].0, SampleExclusions[1].1); }
    assert keep(rows[2]);
    assert rows[1..][1..] == [rows[2]] && [rows[2]][1..] == [];
  }

  /** With a single exclusion the code as written selects the intended rows. */
  lemma FilterOneKeyAsWrittenAgrees(t: Table, column: string, values: seq<string>)
    requires column in t.columns
    ensures var r := FilterIndexAsWritten(t, [(column, values)], Range(0, |t.rows|));
      && r.Success?
      && (forall k :: 0 <= k < |r.value| ==> 0 <= r.value[k] < |t.rows|)
      && Pick(t.rows, r.value) == KeptRows(t.rows, [(column, values)])
  {
    var filter := [(column, values)];
    var mask := Filter(PassesAt(t.rows, column, values), Range(0, |t.rows|));
    FilterAt(PassesAt(t.rows, column, values), Range(0, |t.rows|));
    assert Pick(Range(0, |t.rows|), mask) == mask;
    assert filter[1..] == [];
    forall j | j in Range(0, |t.rows|) ensures PassesAt(t.rows, column, values)(j) == KeepsAt(t.rows, filter)(j) {
      assert filter[0] == (column, values);
    }
    FilterCongruent(PassesAt(t.rows, column, values), KeepsAt(t.rows, filter), Range(0, |t.rows|));
    PickKept(t.rows, filter);
  }

  /** The items of `index_to_dict_names`: CSV column to record key, in order. */
  type Renames = seq<(string, string)>

  const DefaultRenames: Renames := [("Name", "name"), ("HTML_Path", "link"), ("Thumbnail", "thumbnail"), ("Tags", "content")]

  /** `fillna("")`: a missing cell reads as the empty string. */
  function Cell(row: Record, column: string): string {
    if column in row then row[column] else ""
  }

  /** No later entry of `names` renames to the same key as entry `i`. */
  predicate LastTarget(names: Renames, i: int)
    requires 0 <= i < |names|
  {
    forall j :: i < j < |names| ==> names[j].1 != names[i].1
  }

  /**
   * The selected columns of one row under their new names, missing cells as "";
   * when two columns get the same name, the later one's cell is kept, as when
   * `to_dict` builds a dictionary from them.
   */
  function Project(names: Renames, row: Record): (r: Record)
    ensures r.Keys == ColumnSet(Seconds(names))
    ensures forall i :: 0 <= i < |names| && LastTarget(names, i) ==> r[names[i].1] == Cell(row, names[i].0)
    decreases |names|
  {
    if names == [] then map[]
    else
      var init := names[..|names| - 1];
      var last := names[|names| - 1];
      assert names == init + [last];
      ProjectExtend(init, last, row, Project(init, row));
      Project(init, row)[last.1 := Cell(row, last.0)]
  }

  /** The induction step of `Project`: renaming one more column keeps its contract. */
  lemma ProjectExtend(init: Renames, last: (string, string), row: Record, p: Record)
    requires p.Keys == ColumnSet(Seconds(init))
    requires forall i :: 0 <= i < |init| && LastTarget(init, i) ==> p[init[i].1] == Cell(row, init[i].0)
    ensures p[last.1 := Cell(row, last.0)].Keys == ColumnSet(Seconds(init + [last]))
    ensures var names, q := init + [last], p[last.1 := Cell(row, last.0)];
      forall i :: 0 <= i < |names| && LastTarget(names, i) ==> q[names[i].1] == Cell(row, names[i].0)
  {
    var names, q := init + [last], p[last.1 := Cell(row, last.0)];
    assert Seconds(names) == Seconds(init) + [last.1];
    ColumnSetSnoc(Seconds(init), last.1);
    forall i | 0 <= i < |names| && LastTarget(names, i) ensures q[names[i].1] == Cell(row, names[i].0) {
      if i < |init| {
        assert names[i] == init[i] && names[|init|] == last;
        assert init[i].1 != last.1;
        forall j | i < j < |init| ensures init[j].1 != init[i].1 {
          assert names[j] == init[j];
        }
        assert q[init[i].1] == p[init[i].1];
      } else {
        assert names[i] == last;
      }
    }
  }

  function ProjectAll(names: Renames, rows: seq<Record>): (r: seq<Record>)
    ensures |r| == |rows| && forall i :: 0 <= i < |rows| ==> r[i] == Project(names, rows[i])
  {
    seq(|rows|, i requires 0 <= i < |rows| => Project(names, rows[i]))
  }

  /** `str.contains(search, case=False)` on a present Name cell, as a literal substring. */
  predicate NameMatches(search: string, row: Record) {
    "Name" in row && Contains(Lower(row["Name"]), Lower(search))
  }

  function MatchesName(search: string): Record -> bool {
    row => NameMatches(search, row)
  }

  /** Every row has a Name cell. */
  predicate AllNamed(rows: seq<Record>) {
    forall i :: 0 <= i < |rows| ==> "Name" in rows[i]
  }

  const NaNMask := "Cannot mask with non-boolean array containing NA / NaN values"

  /**
   * The search step of `index_csv_to_dict`: an empty search keeps every row; otherwise
   * the Name column must exist and no row may lack a Name (a NaN in the mask).
   */
  function SearchRows(columns: seq<string>, rows: seq<Record>, search: string): (r: Result<seq<Record>>)
    ensures r.Success? <==> search == "" || ("Name" in columns && AllNamed(rows))
    ensures r.Success? && search == "" ==> r.value == rows
    ensures search != "" && "Name" !in columns ==> r == Failure(KeyError("Name"))
    ensures search != "" && "Name" in columns && !AllNamed(rows) ==> r == Failure(ValueError(NaNMask))
  {
    if search == "" then Success(rows)
    else if "Name" !in columns then Failure(KeyError("Name"))
    else if !AllNamed(rows) then Failure(ValueError(NaNMask))
    else Success(Filter(MatchesName(search), rows))
  }

  /** The row passes the exclusions and, for a non-empty search, its Name matches. */
  predicate Selected(filter: Exclusions, search: string, row: Record) {
    Keeps(filter, row) && (search == "" || NameMatches(search, row))
  }

  function SelectedRow(filter: Exclusions, search: string): Record -> bool {
    row => Selected(filter, search, row)
  }

  /**
   * `index_csv_to_dict` on a table already read: exclude, search by name, select and
   * rename the columns, and fill missing cells with "".
   */
  function IndexCsvToDict(t: Table, names: Renames, filter: Exclusions, search: string): (r: Result<seq<Record>>)
    ensures r.Success? <==>
      && FilterAsWrittenSucceeds(t, filter)
      && FirstMissing(Firsts(names), t.columns) == |names|
      && (search != "" ==> "Name" in t.columns && AllNamed(KeptRows(t.rows, filter)))
    ensures r.Success? ==> |r.value| <= |t.rows|
    ensures r.Success? ==> forall i :: 0 <= i < |r.value| ==> r.value[i].Keys == ColumnSet(Seconds(names))
    ensures !FilterAsWrittenSucceeds(t, filter) ==> r == Failure(FilterOutDataAsWritten(t, filter).error)
    ensures FilterAsWrittenSucceeds(t, filter) && SearchRows(t.columns, KeptRows(t.rows, filter), search).Failure? ==>
      r == Failure(SearchRows(t.columns, KeptRows(t.rows, filter), search).error)
    ensures FilterAsWrittenSucceeds(t, filter) && SearchRows(t.columns, KeptRows(t.rows, filter), search).Success? ==>
      (FirstMissing(Firsts(names), t.columns) < |names| ==>
         r == Failure(KeyError(names[FirstMissing(Firsts(names), t.columns)].0)))
  {
    var kept :- FilterOutDataAsWritten(t, filter);
    var found :- SearchRows(t.columns, kept, search);
    var m := FirstMissing(Firsts(names), t.columns);
    if m < |names| then Failure(KeyError(names[m].0))
    else
      assert |found| <= |t.rows| by {
        if search != "" { assert |found| <= |kept|; }
      }
      Success(ProjectAll(names, found))
  }

  /** Exclusion followed by search selects the rows passing both, in table order. */
  lemma SearchSelects(t: Table, filter: Exclusions, search: string)
    requires SearchRows(t.columns, KeptRows(t.rows, filter), search).Success?
    ensures SearchRows(t.columns, KeptRows(t.rows, filter), search).value == Filter(SelectedRow(filter, search), t.rows)
  {
    if search == "" {
      FilterCongruent(KeepsRow(filter), SelectedRow(filter, search), t.rows);
    } else {
      FilterTwice(KeepsRow(filter), MatchesName(search), t.rows);
      FilterCongruent(And(KeepsRow(filter), MatchesName(search)), SelectedRow(filter, search), t.rows);
    }
  }

  /**
   * What `index_csv_to_dict` returns: one renamed record per row that passes the
   * exclusions and the search, in table order.
   */
  lemma IndexCsvToDictSelects(t: Table, names: Renames, filter: Exclusions, search: string)
    requires IndexCsvToDict(t, names, filter, search).Success?
    ensures IndexCsvToDict(t, names, filter, search).value == ProjectAll(names, Filter(SelectedRow(filter, search), t.rows))
  {
    SearchSelects(t, filter, search);
  }

  /** With the default renames and exclusions and no search, only the "Home" row is left out. */
  lemma IndexCsvToDictDefaults(t: Table)
    requires forall i :: 0 <= i < |DefaultRenames| ==> DefaultRenames[i].0 in t.columns
    ensures var r := IndexCsvToDict(t, DefaultRenames, DefaultExclusions, "");
      && r.Success?
      && var kept := Filter(NotHome, t.rows);
      && |r.value| == |kept|
      && forall i :: 0 <= i < |kept| ==> r.value[i] == DefaultRecord(kept[i])
  {
    assert FirstMissing(Firsts(DefaultExclusions), t.columns) == 1 by {
      assert DefaultRenames[0].0 == "Name";
    }
    assert FirstMissing(Firsts(DefaultRenames), t.columns) == 4;
    IndexCsvToDictSelects(t, DefaultRenames, DefaultExclusions, "");
    forall row | row in t.rows ensures SelectedRow(DefaultExclusions, "")(row) == NotHome(row) {
      assert DefaultExclusions[0] == ("Name", ["Home"]);
    }
    FilterCongruent(SelectedRow(DefaultExclusions, ""), NotHome, t.rows);
    forall row: Record ensures Project(DefaultRenames, row) == DefaultRecord(row) {
      DefaultProject(row);
    }
  }

  /** The record the default renames make of a row. */
  function DefaultRecord(row: Record): Record {
    map["name" := Cell(row, "Name"), "link" := Cell(row, "HTML_Path"),
        "thumbnail" := Cell(row, "Thumbnail"), "content" := Cell(row, "Tags")]
  }

  lemma DefaultProject(row: Record)
    ensures Project(DefaultRenames, row) == DefaultRecord(row)
  {
    var n0, n1, n2, n3 := ("Name", "name"), ("HTML_Path", "link"), ("Thumbnail", "thumbnail"), ("Tags", "content");
    assert DefaultRenames == [n0] + [n1] + [n2] + [n3];
    ProjectSnoc([], n0, row);
    ProjectSnoc([n0], n1, row);
    ProjectSnoc([n0] + [n1], n2, row);
    ProjectSnoc([n0] + [n1] + [n2], n3, row);
  }

  /** Renaming one more column adds (or overwrites) its key last. */
  lemma ProjectSnoc(init: Renames, last: (string, string), row: Record)
    ensures Project(init + [last], row) == Project(init, row)[last.1 := Cell(row, last.0)]
  {
    assert (init + [last])[..|init|] == init;
  }

  /** The default exclusion as a row predicate: the Name cell is not "Home". */
  function NotHome(row: Record): bool {
    !("Name" in row && row["Name"] == "Home")
  }

  /** The rewritten link `os.path.join(" ", home_dir, link).replace(" ", "")`. */
  function NavLink(homeDir: string, link: string): (r: string)
    ensures ' ' !in r
  {
    ReplaceRemovesChar(Join(Join(" ", homeDir), link), ' ');
    Replace(Join(Join(" ", homeDir), link), " ", "")
  }

  /** For a plain relative link the rewrite is `/home_dir/link` (or `/link` for an empty home_dir). */
  lemma NavLinkShape(homeDir: string, link: string)
    requires ' ' !in homeDir && ' ' !in link
    requires homeDir == "" || (homeDir[0] != '/' && homeDir[|homeDir| - 1] != '/')
    requires link != "" && link[0] != '/'
    ensures NavLink(homeDir, link) == "/" + (if homeDir == "" then "" else homeDir + "/") + link
  {
    var rest := "/" + (if homeDir == "" then "" else homeDir + "/") + link;
    assert Join(" ", homeDir) == " /" + homeDir;
    assert Join(Join(" ", homeDir), link) == " " + rest;
    assert ' ' !in rest;
    ReplaceLeadingSpace(rest);
  }

  /** Removing the spaces of " " followed by a text without spaces leaves that text. */
  lemma ReplaceLeadingSpace(rest: string)
    requires ' ' !in rest
    ensures Replace(" " + rest, " ", "") == rest
  {
    ContainsChar(rest, ' ');
    ReplaceAbsent(rest, " ", "");
    assert (" " + rest)[..1] == " " && (" " + rest)[1..] == rest;
  }

  /** A nav entry's value: the Name cell, or NaN (None) when missing. */
  function NavName(row: Record, nameColumn: string): Option<string> {
    if nameColumn in row then Some(row[nameColumn]) else None
  }

  /** Every row has a link cell. */
  predicate AllLinked(rows: seq<Record>, linkColumn: string) {
    forall i :: 0 <= i < |rows| ==> linkColumn in rows[i]
  }

  /** The rewritten links of all rows, in order. */
  function Links(homeDir: string, linkColumn: string, rows: seq<Record>): (r: seq<string>)
    requires AllLinked(rows, linkColumn)
    ensures |r| == |rows| && forall i :: 0 <= i < |rows| ==> r[i] == NavLink(homeDir, rows[i][linkColumn])
  {
    seq(|rows|, i requires 0 <= i < |rows| && AllLinked(rows, linkColumn) => NavLink(homeDir, rows[i][linkColumn]))
  }

  /** `dict(zip(links, names))`: a later row with the same link overwrites an earlier one. */
  function NavEntries(homeDir: string, nameColumn: string, linkColumn: string, rows: seq<Record>): (r: map<string, Option<string>>)
    requires AllLinked(rows, linkColumn)
    ensures forall key :: key in r ==> ' ' !in key
    decreases |rows|
  {
    if rows == [] then map[]
    else
      var last := rows[|rows| - 1];
      assert AllLinked(rows[..|rows| - 1], linkColumn);
      NavEntries(homeDir, nameColumn, linkColumn, rows[..|rows| - 1])[NavLink(homeDir, last[linkColumn]) := NavName(last, nameColumn)]
  }

  /** The keys of the nav dictionary are exactly the rewritten links. */
  lemma {:induction false} NavEntriesKeys(homeDir: string, nameColumn: string, linkColumn: string, rows: seq<Record>)
    requires AllLinked(rows, linkColumn)
    ensures NavEntries(homeDir, nameColumn, linkColumn, rows).Keys == ColumnSet(Links(homeDir, linkColumn, rows))
    decreases |rows|
  {
    if rows != [] {
      var init := rows[..|rows| - 1];
      assert AllLinked(init, linkColumn);
      NavEntriesKeys(homeDir, nameColumn, linkColumn, init);
      var all := Links(homeDir, linkColumn, rows);
      var before := Links(homeDir, linkColumn, init);
      assert all == before + [all[|rows| - 1]] by {
        forall i | 0 <= i < |init| ensures before[i] == all[i] {
          assert init[i] == rows[i];
        }
      }
      ColumnSetSnoc(before, all[|rows| - 1]);
    }
  }

  /** No row after row `i` rewrites to the same link. */
  predicate LastWithLink(homeDir: string, linkColumn: string, rows: seq<Record>, i: int)
    requires AllLinked(rows, linkColumn) && 0 <= i < |rows|
  {
    forall j :: i < j < |rows| ==> Links(homeDir, linkColumn, rows)[j] != Links(homeDir, linkColumn, rows)[i]
  }

  /** Each link maps to the name of the LAST row that carries it. */
  lemma {:induction false} NavEntriesLastWins(homeDir: string, nameColumn: string, linkColumn: string, rows: seq<Record>, i: nat)
    requires AllLinked(rows, linkColumn) && i < |rows| && LastWithLink(homeDir, linkColumn, rows, i)
    ensures Links(homeDir, linkColumn, rows)[i] in NavEntries(homeDir, nameColumn, linkColumn, rows)
    ensures NavEntries(homeDir, nameColumn, linkColumn, rows)[Links(homeDir, linkColumn, rows)[i]] == NavName(rows[i], nameColumn)
    decreases |rows|
  {
    if i < |rows| - 1 {
      var init := rows[..|rows| - 1];
      assert AllLinked(init, linkColumn);
      assert init[i] == rows[i];
      assert Links(homeDir, linkColumn, init)[i] == Links(homeDir, linkColumn, rows)[i];
      assert LastWithLink(homeDir, linkColumn, init, i) by {
        forall j | i < j < |init| ensures Links(homeDir, linkColumn, init)[j] != Links(homeDir, linkColumn, init)[i] {
          assert init[j] == rows[j];
          assert Links(homeDir, linkColumn, init)[j] == Links(homeDir, linkColumn, rows)[j];
        }
      }
      NavEntriesLastWins(homeDir, nameColumn, linkColumn, init, i);
      assert Links(homeDir, linkColumn, rows)[|rows| - 1] != Links(homeDir, linkColumn, rows)[i];
    }
  }

  /**
   * `index_csv_to_nav_dict` on a table already read, with `index_names` given as its
   * two entries (the name column and the link column).
   */
  function IndexCsvToNavDict(t: Table, homeDir: string, nameColumn: string, linkColumn: string,
                             filter: Exclusions): (r: Result<map<string, Option<string>>>)
    ensures r.Success? <==>
      && FilterAsWrittenSucceeds(t, filter)
      && nameColumn in t.columns && linkColumn in t.columns
      && AllLinked(KeptRows(t.rows, filter), linkColumn)
    ensures r.Success? ==> r.value == NavEntries(homeDir, nameColumn, linkColumn, KeptRows(t.rows, filter))
    ensures !FilterAsWrittenSucceeds(t, filter) ==> r == Failure(FilterOutDataAsWritten(t, filter).error)
    ensures FilterAsWrittenSucceeds(t, filter) && nameColumn !in t.columns ==> r == Failure(KeyError(nameColumn))
    ensures FilterAsWrittenSucceeds(t, filter) && nameColumn in t.columns && linkColumn !in t.columns ==>
      r == Failure(KeyError(linkColumn))
    ensures FilterAsWrittenSucceeds(t, filter) && nameColumn in t.columns && linkColumn in t.columns ==>
      (!AllLinked(KeptRows(t.rows, filter), linkColumn) ==> r == Failure(TypeError))
  {
    var kept :- FilterOutDataAsWritten(t, filter);
    if nameColumn !in t.columns then Failure(KeyError(nameColumn))
    else if linkColumn !in t.columns then Failure(KeyError(linkColumn))
    else if !AllLinked(kept, linkColumn) then Failure(TypeError)
    else Success(NavEntries(homeDir, nameColumn, linkColumn, kept))
  }

  /** A Python dictionary as its items in insertion order. */
  type Dict<K, V> = seq<(K, V)>

  function KeysOf<K, V>(d: Dict<K, V>): set<K> {
    set i | 0 <= i < |d| :: d[i].0
  }

  function ValuesOf<K, V>(d: Dict<K, V>): set<V> {
    set i | 0 <= i < |d| :: d[i].1
  }

  /** No key occurs twice, as in every dictionary. */
  predicate DistinctKeys<K(==), V>(d: Dict<K, V>) {
    forall i, j :: 0 <= i < j < |d| ==> d[i].0 != d[j].0
  }

  /** No value occurs twice. */
  predicate DistinctValues<K, V(==)>(d: Dict<K, V>) {
    forall i, j :: 0 <= i < j < |d| ==> d[i].1 != d[j].1
  }

  /** `d[key]` for a key of `d`: the value of its first entry. */
  function ValueAt<K(==), V>(d: Dict<K, V>, key: K): V
    requires key in KeysOf(d)
  {
    if d[0].0 == key then d[0].1
    else
      assert key in KeysOf(d[1..]) by {
        var i :| 0 <= i < |d| && d[i].0 == key;
        assert d[1..][i - 1] == d[i];
      }
      ValueAt(d[1..], key)
  }

  /** `d[key] = value`: an existing key keeps its place and takes the new value; a new key goes last. */
  function Assign<K(==), V>(d: Dict<K, V>, key: K, value: V): (r: Dict<K, V>)
    ensures KeysOf(r) == KeysOf(d) + {key}
    ensures ValueAt(r, key) == value
    ensures forall k :: k in KeysOf(d) && k != key ==> ValueAt(r, k) == ValueAt(d, k)
    ensures key !in KeysOf(d) ==> r == d + [(key, value)]
  {
    if d == [] then
      var r := [(key, value)];
      KeysOfCons(r);
      assert r[1..] == [];
      r
    else if d[0].0 == key then
      assert KeysOf(d) == KeysOf(d[1..]) + {key} by { KeysOfCons(d); }
      var r := [(key, value)] + d[1..];
      KeysOfCons(r);
      assert r[1..] == d[1..];
      r
    else
      var rest := Assign(d[1..], key, value);
      var r := [d[0]] + rest;
      KeysOfCons(d);
      KeysOfCons(r);
      assert r[1..] == rest;
      r
  }

  lemma KeysOfCons<K, V>(d: Dict<K, V>)
    requires d != []
    ensures KeysOf(d) == {d[0].0} + KeysOf(d[1..])
  {
    forall k | k in KeysOf(d) ensures k in {d[0].0} + KeysOf(d[1..]) {
      var i :| 0 <= i < |d| && d[i].0 == k;
      if i > 0 {
        assert d[1..][i - 1] == d[i];
      }
    }
    forall k | k in KeysOf(d[1..]) ensures k in KeysOf(d) {
      var i :| 0 <= i < |d[1..]| && d[1..][i].0 == k;
      assert d[i + 1] == d[1..][i];
    }
  }

  lemma NotInKeysOf<K, V>(d: Dict<K, V>, key: K)
    requires forall i :: 0 <= i < |d| ==> d[i].0 != key
    ensures key !in KeysOf(d)
  {
  }

  /** Each item turned around: value first, then key. */
  function Swap<K, V>(d: Dict<K, V>): (r: Dict<V, K>)
    ensures |r| == |d| && forall i :: 0 <= i < |d| ==> r[i] == (d[i].1, d[i].0)
  {
    seq(|d|, i requires 0 <= i < |d| => (d[i].1, d[i].0))
  }

  /**
   * `alter_dict_key_value`: `{value: key for key, value in dic.items()}`, the items
   * visited in order, each one assigning its key to its value.
   */
  function AlterDictKeyValue<K, V(==)>(dic: Dict<K, V>): (r: Dict<V, K>)
    ensures DistinctKeys(r)
    decreases |dic|
  {
    if dic == [] then []
    else
      var last := dic[|dic| - 1];
      var before := AlterDictKeyValue(dic[..|dic| - 1]);
      AssignKeepsDistinct(before, last.1, last.0);
      Assign(before, last.1, last.0)
  }

  /** Assigning to a dictionary keeps its keys distinct. */
  lemma {:induction false} AssignKeepsDistinct<K, V>(d: Dict<K, V>, key: K, value: V)
    requires DistinctKeys(d)
    ensures DistinctKeys(Assign(d, key, value))
    decreases |d|
  {
    var r := Assign(d, key, value);
    if d != [] && d[0].0 != key {
      var rest := Assign(d[1..], key, value);
      assert DistinctKeys(d[1..]) by {
        forall i, j | 0 <= i < j < |d[1..]| ensures d[1..][i].0 != d[1..][j].0 {
          assert d[1..][i] == d[i + 1] && d[1..][j] == d[j + 1];
        }
      }
      AssignKeepsDistinct(d[1..], key, value);
      assert r == [d[0]] + rest;
      assert d[0].0 !in KeysOf(d[1..]) by {
        forall i | 0 <= i < |d[1..]| ensures d[1..][i].0 != d[0].0 {
          assert d[1..][i] == d[i + 1];
        }
        NotInKeysOf(d[1..], d[0].0);
      }
      forall j | 0 < j < |r| ensures r[j].0 != r[0].0 {
        assert r[j] == rest[j - 1];
        assert rest[j - 1].0 in KeysOf(rest);
      }
    } else if d != [] {
      var r := [(key, value)] + d[1..];
      forall i, j | 0 <= i < j < |r| ensures r[i].0 != r[j].0 {
        assert r[j] == d[j];
        if i > 0 { assert r[i] == d[i]; }
      }
    }
  }

  /** The keys of the result are the values of the input. */
  lemma {:induction false} AlterDictKeyValueKeys<K, V>(dic: Dict<K, V>)
    ensures KeysOf(AlterDictKeyValue(dic)) == ValuesOf(dic)
    decreases |dic|
  {
    if dic != [] {
      var init := dic[..|dic| - 1];
      AlterDictKeyValueKeys(init);
      ValuesOfSnoc(dic);
    }
  }

  lemma ValuesOfSnoc<K, V>(dic: Dict<K, V>)
    requires dic != []
    ensures ValuesOf(dic) == ValuesOf(dic[..|dic| - 1]) + {dic[|dic| - 1].1}
  {
    var init := dic[..|dic| - 1];
    forall v | v in ValuesOf(dic) ensures v in ValuesOf(init) + {dic[|dic| - 1].1} {
      var i :| 0 <= i < |dic| && dic[i].1 == v;
      if i < |init| {
        assert init[i] == dic[i];
      }
    }
    forall v | v in ValuesOf(init) ensures v in ValuesOf(dic) {
      var i :| 0 <= i < |init| && init[i].1 == v;
      assert dic[i] == init[i];
    }
  }

  /** No item after item `i` has the same value. */
  predicate LastWithValue<K, V(==)>(dic: Dict<K, V>, i: int)
    requires 0 <= i < |dic|
  {
    forall j :: i < j < |dic| ==> dic[j].1 != dic[i].1
  }

  /** Each value maps back to the key of the LAST item that carries it. */
  lemma {:induction false} AlterDictKeyValueLastWins<K, V>(dic: Dict<K, V>, i: nat)
    requires i < |dic| && LastWithValue(dic, i)
    ensures dic[i].1 in KeysOf(AlterDictKeyValue(dic))
    ensures ValueAt(AlterDictKeyValue(dic), dic[i].1) == dic[i].0
    decreases |dic|
  {
    if i < |dic| - 1 {
      var init := dic[..|dic| - 1];
      assert init[i] == dic[i];
      assert LastWithValue(init, i) by {
        forall j | i < j < |init| ensures init[j].1 != init[i].1 {
          assert init[j] == dic[j];
        }
      }
      AlterDictKeyValueLastWins(init, i);
    }
  }

  /** With no repeated value, inverting keeps the order and turns each item around. */
  lemma {:induction false} AlterDictKeyValueSwaps<K, V>(dic: Dict<K, V>)
    requires DistinctValues(dic)
    ensures AlterDictKeyValue(dic) == Swap(dic)
    decreases |dic|
  {
    if dic != [] {
      var init, last := dic[..|dic| - 1], dic[|dic| - 1];
      DistinctValuesSnoc(dic);
      AlterDictKeyValueSwaps(init);
      SwapSnoc(dic);
      AssignNew(Swap(init), last.1, last.0);
    }
  }

  /** The last item's value is new to the items before it, which keep distinct values. */
  lemma DistinctValuesSnoc<K, V>(dic: Dict<K, V>)
    requires dic != [] && DistinctValues(dic)
    ensures DistinctValues(dic[..|dic| - 1])
    ensures dic[|dic| - 1].1 !in KeysOf(Swap(dic[..|dic| - 1]))
  {
    var init, last := dic[..|dic| - 1], dic[|dic| - 1];
    forall i, j | 0 <= i < j < |init| ensures init[i].1 != init[j].1 {
      assert init[i] == dic[i] && init[j] == dic[j];
    }
    var before := Swap(init);
    forall i | 0 <= i < |before| ensures before[i].0 != last.1 {
      assert init[i] == dic[i];
    }
    NotInKeysOf(before, last.1);
  }

  lemma SwapSnoc<K, V>(dic: Dict<K, V>)
    requires dic != []
    ensures Swap(dic) == Swap(dic[..|dic| - 1]) + [(dic[|dic| - 1].1, dic[|dic| - 1].0)]
  {
    var init, before, after := dic[..|dic| - 1], Swap(dic[..|dic| - 1]), Swap(dic);
    forall i | 0 <= i < |before| ensures after[i] == before[i] {
      assert init[i] == dic[i];
    }
  }

  lemma AssignNew<K, V>(d: Dict<K, V>, key: K, value: V)
    requires key !in KeysOf(d)
    ensures Assign(d, key, value) == d + [(key, value)]
  {
  }

  /** Inverting a dictionary without repeated values twice gives it back, in the same order. */
  lemma AlterDictKeyValueTwice<K, V>(dic: Dict<K, V>)
    requires DistinctKeys(dic) && DistinctValues(dic)
    ensures AlterDictKeyValue(AlterDictKeyValue(dic)) == dic
  {
    AlterDictKeyValueSwaps(dic);
    var swapped := Swap(dic);
    assert DistinctValues(swapped) by {
      forall i, j | 0 <= i < j < |swapped| ensures swapped[i].1 != swapped[j].1 {
        assert swapped[i].1 == dic[i].0 && swapped[j].1 == dic[j].0;
      }
    }
    AlterDictKeyValueSwaps(swapped);
    assert Swap(swapped) == dic;
  }
}
