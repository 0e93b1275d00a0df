/** Step 1 of the merger: reading the CSV mapping. The header selects the
    extension axes, each extension column yields its range, and every row feeds
    a lookup from style name to the row's numeric cells. */
module Mapping {
  import opened Common
  import opened Text

  /** The column holding the instance's style name. */
  const InstanceColumn := "Instance"

  /** One parsed data row: the raw `Instance` cell (absent when the row has no
      such cell) and the other cells, already converted to numbers; `None`
      stands for an empty or missing cell. */
  datatype Row = Row(instance: Option<string>, cells: map<string, Option<real>>)

  /** A CSV file after parsing: the header row, absent for an empty file. */
  datatype Table = Table(header: Option<seq<string>>, rows: seq<Row>)

  /** The shape `csv.DictReader` gives its rows: a row only has cells for
      header fields, so it has an `Instance` cell only when the header has an
      `Instance` column. */
  predicate Parsed(t: Table) {
    t.header.Some? ==>
      forall j :: 0 <= j < |t.rows| ==>
        && (t.rows[j].instance.Some? ==> InstanceColumn in t.header.value)
        && (forall k :: k in t.rows[j].cells ==> k in t.header.value)
  }

  datatype Bounds = Bounds(min: real, max: real)

  /** What step 1 hands to the later steps. */
  datatype Discovery = Discovery(
    axes: seq<string>,
    bounds: map<string, Bounds>,
    lookup: map<string, map<string, real>>)

  /** Why step 1 stops the run: no header (the script exits), a row without an
      `Instance` cell (a lookup error), an extension column with no value at
      all (`min` of an empty list). */
  datatype MappingError = NoHeader | MissingInstance(row: nat) | EmptyColumn(axis: string)

  /** Every axis in `axes` has a range. */
  predicate Covers(axes: seq<string>, bounds: map<string, Bounds>) {
    forall a :: a in axes ==> a in bounds
  }

  /** The header fields that carry the extension marker, in header order. */
  function ExtensionAxes(header: seq<string>): (axes: seq<string>)
    ensures forall a :: a in axes <==> a in header && HasMarker(a)
    ensures |axes| <= |header|
  {
    if |header| == 0 then []
    else (if HasMarker(header[0]) then [header[0]] else []) + ExtensionAxes(header[1..])
  }

  /** Selection respects header order: the axes of a split header are the axes
      of its first part followed by the axes of its second part. */
  lemma {:induction false} ExtensionAxesAppend(h1: seq<string>, h2: seq<string>)
    ensures ExtensionAxes(h1 + h2) == ExtensionAxes(h1) + ExtensionAxes(h2)
    decreases |h1|
  {
    if |h1| == 0 {
      assert h1 + h2 == h2;
    } else {
      assert (h1 + h2)[1..] == h1[1..] + h2;
      ExtensionAxesAppend(h1[1..], h2);
    }
  }

  /** A header that names no column twice yields each extension axis once. */
  lemma {:induction false} ExtensionAxesDistinct(header: seq<string>)
    requires NoDuplicates(header)
    ensures NoDuplicates(ExtensionAxes(header))
    decreases |header|
  {
    if |header| > 0 {
      var tail := header[1..];
      assert NoDuplicates(tail) by {
        forall i, j | 0 <= i < j < |tail| ensures tail[i] != tail[j] {
          assert tail[i] == header[i + 1] && tail[j] == header[j + 1];
        }
      }
      ExtensionAxesDistinct(tail);
      assert header[0] !in tail by {
        forall i | 0 <= i < |tail| ensures tail[i] != header[0] {
          assert tail[i] == header[i + 1];
        }
      }
      var here := if HasMarker(header[0]) then [header[0]] else [];
      var rest := ExtensionAxes(tail);
      forall i, j | 0 <= i < j < |here + rest| ensures (here + rest)[i] != (here + rest)[j] {
        if i < |here| {
          assert (here + rest)[j] == rest[j - |here|];
          assert rest[j - |here|] in tail;
        } else {
          assert (here + rest)[i] == rest[i - |here|] && (here + rest)[j] == rest[j - |here|];
        }
      }
    }
  }

  /** A row's cell in a column, `None` when empty or missing. */
  function Cell(row: Row, column: string): Option<real> {
    if column in row.cells then row.cells[column] else None
  }

  /** The non-empty values of one column, in row order. */
  function ColumnValues(rows: seq<Row>, column: string): (vs: seq<real>)
    ensures forall v :: v in vs ==> exists j :: 0 <= j < |rows| && Cell(rows[j], column) == Some(v)
    ensures forall j :: 0 <= j < |rows| && Cell(rows[j], column).Some? ==> Cell(rows[j], column).value in vs
  {
    if |rows| == 0 then []
    else
      var rest := ColumnValues(rows[1..], column);
      assert forall j :: 1 <= j < |rows| ==> rows[1..][j - 1] == rows[j];
      match Cell(rows[0], column)
      case None => rest
      case Some(v) => [v] + rest
  }

  /** Python's `min` of a non-empty list. */
  function SeqMin(s: seq<real>): (m: real)
    requires |s| > 0
    ensures m in s
    ensures forall x :: x in s ==> m <= x
  {
    if |s| == 1 then s[0]
    else
      var rest := SeqMin(s[1..]);
      assert forall x :: x in s ==> x == s[0] || x in s[1..];
      if rest < s[0] then rest else s[0]
  }

  /** Python's `max` of a non-empty list. */
  function SeqMax(s: seq<real>): (m: real)
    requires |s| > 0
    ensures m in s
    ensures forall x :: x in s ==> x <= m
  {
    if |s| == 1 then s[0]
    else
      var rest := SeqMax(s[1..]);
      assert forall x :: x in s ==> x == s[0] || x in s[1..];
      if rest > s[0] then rest else s[0]
  }

  /** Every row has an `Instance` cell. */
  predicate AllNamed(rows: seq<Row>) {
    forall j :: 0 <= j < |rows| ==> rows[j].instance.Some?
  }

  /** The first row without an `Instance` cell, where the lookup loop fails. */
  function FirstUnnamed(rows: seq<Row>): (r: Option<nat>)
    ensures r.None? <==> AllNamed(rows)
    ensures r.Some? ==> r.value < |rows| && rows[r.value].instance.None?
    ensures r.Some? ==> AllNamed(rows[..r.value])
  {
    if |rows| == 0 then None
    else if rows[0].instance.None? then Some(0)
    else
      match FirstUnnamed(rows[1..])
      case None => None
      case Some(j) => assert rows[..j + 1] == [rows[0]] + rows[1..][..j]; Some(j + 1)
  }

  /** The first extension axis whose column holds no value, where the range loop fails. */
  function FirstEmptyColumn(axes: seq<string>, rows: seq<Row>): (r: Option<string>)
    ensures r.None? <==> forall a :: a in axes ==> |ColumnValues(rows, a)| > 0
    ensures r.Some? ==> r.value in axes && |ColumnValues(rows, r.value)| == 0
  {
    if |axes| == 0 then None
    else if |ColumnValues(rows, axes[0])| == 0 then assert axes[0] in axes; Some(axes[0])
    else FirstEmptyColumn(axes[1..], rows)
  }

  /** The lookup key of a row: its style name with surrounding whitespace removed. */
  function StyleKey(row: Row): string
    requires row.instance.Some?
  {
    Strip(row.instance.value)
  }

  /** The lookup entry of a row: every column other than `Instance` whose cell is non-empty. */
  function Entry(row: Row): map<string, real> {
    map k | k in row.cells && k != InstanceColumn && row.cells[k].Some? :: row.cells[k].value
  }

  /** The style lookup, built row by row so that a later row with the same key
      replaces an earlier one. */
  function StyleLookup(rows: seq<Row>): map<string, map<string, real>>
    requires AllNamed(rows)
    decreases |rows|
  {
    if |rows| == 0 then map[]
    else
      var last := rows[|rows| - 1];
      StyleLookup(rows[..|rows| - 1])[StyleKey(last) := Entry(last)]
  }

  /** The lookup's keys are exactly the rows' stripped style names. */
  lemma {:induction false} StyleLookupKeys(rows: seq<Row>)
    requires AllNamed(rows)
    ensures StyleLookup(rows).Keys == set j | 0 <= j < |rows| :: StyleKey(rows[j])
    decreases |rows|
  {
    if |rows| > 0 {
      var init := rows[..|rows| - 1];
      assert forall j :: 0 <= j < |init| ==> init[j] == rows[j];
      StyleLookupKeys(init);
      var all := set j | 0 <= j < |rows| :: StyleKey(rows[j]);
      var before := set j | 0 <= j < |init| :: StyleKey(init[j]);
      var lastKey := StyleKey(rows[|rows| - 1]);
      forall x | x in all ensures x in before || x == lastKey {
        var j :| 0 <= j < |rows| && StyleKey(rows[j]) == x;
        if j < |init| {
          assert StyleKey(init[j]) == x;
        }
      }
      forall x | x in before ensures x in all {
        var j :| 0 <= j < |init| && StyleKey(init[j]) == x;
        assert StyleKey(rows[j]) == x;
      }
      assert lastKey in all;
      assert all == before + {lastKey};
    }
  }

  /** Every entry of the lookup is the entry of some row carrying its key. */
  lemma {:induction false} StyleLookupEntryFromRow(rows: seq<Row>, k: string) returns (j: nat)
    requires AllNamed(rows)
    requires k in StyleLookup(rows)
    ensures j < |rows| && StyleKey(rows[j]) == k
    ensures StyleLookup(rows)[k] == Entry(rows[j])
    decreases |rows|
  {
    var last := |rows| - 1;
    if StyleKey(rows[last]) == k {
      j := last;
    } else {
      var init := rows[..last];
      assert forall i :: 0 <= i < |init| ==> init[i] == rows[i];
      j := StyleLookupEntryFromRow(init, k);
    }
  }

  /** Last writer wins: the entry under a key is the one built from the last row with that key. */
  lemma {:induction false} StyleLookupLastRowWins(rows: seq<Row>, j: nat)
    requires AllNamed(rows)
    requires j < |rows|
    requires forall k :: j < k < |rows| ==> StyleKey(rows[k]) != StyleKey(rows[j])
    ensures StyleKey(rows[j]) in StyleLookup(rows)
    ensures StyleLookup(rows)[StyleKey(rows[j])] == Entry(rows[j])
    decreases |rows|
  {
    var last := |rows| - 1;
    if j < last {
      var init := rows[..last];
      assert init[j] == rows[j];
      forall k | j < k < |init|
        ensures StyleKey(init[k]) != StyleKey(init[j])
      {
        assert init[k] == rows[k];
      }
      StyleLookupLastRowWins(init, j);
      assert StyleKey(rows[last]) != StyleKey(rows[j]);
      assert StyleLookup(rows) == StyleLookup(init)[StyleKey(rows[last]) := Entry(rows[last])];
    }
  }

  /** Each extension axis's range is attained by the column's values and encloses all of them. */
  predicate RangesFromColumns(axes: seq<string>, bounds: map<string, Bounds>, rows: seq<Row>) {
    forall a :: a in axes ==>
      && a in bounds
      && bounds[a].min in ColumnValues(rows, a)
      && bounds[a].max in ColumnValues(rows, a)
      && forall v :: v in ColumnValues(rows, a) ==> bounds[a].min <= v <= bounds[a].max
  }

  /** The contract the later steps rely on: every extension axis has a range
      with `min <= max`, and every lookup value on an extension axis lies in it. */
  predicate Valid(d: Discovery) {
    && (forall a :: a in d.axes ==> a in d.bounds && d.bounds[a].min <= d.bounds[a].max)
    && (forall k, a :: k in d.lookup && a in d.axes && a in d.lookup[k] ==>
          d.bounds[a].min <= d.lookup[k][a] <= d.bounds[a].max)
  }

  /** The range of each extension axis: `min` and `max` of its column's values. */
  function Ranges(axes: seq<string>, rows: seq<Row>): (bounds: map<string, Bounds>)
    requires forall a :: a in axes ==> |ColumnValues(rows, a)| > 0
    ensures bounds.Keys == set a | a in axes
    ensures RangesFromColumns(axes, bounds, rows)
  {
    map a | a in axes :: Bounds(SeqMin(ColumnValues(rows, a)), SeqMax(ColumnValues(rows, a)))
  }

  /** `get_e_axes_and_lookup`: the extension axes, their ranges and the style lookup,
      or the error that stops the run, checked in the script's order. */
  function Discover(t: Table): (r: Result<Discovery, MappingError>)
    requires Parsed(t)
    ensures t.header.None? ==> r == Failure(NoHeader)
    ensures t.header.Some? && !AllNamed(t.rows) ==> r == Failure(MissingInstance(FirstUnnamed(t.rows).value))
    ensures t.header.Some? && AllNamed(t.rows) && FirstEmptyColumn(ExtensionAxes(t.header.value), t.rows).Some? ==>
      r == Failure(EmptyColumn(FirstEmptyColumn(ExtensionAxes(t.header.value), t.rows).value))
    ensures r.Success? <==>
      && t.header.Some?
      && AllNamed(t.rows)
      && forall a :: a in ExtensionAxes(t.header.value) ==> |ColumnValues(t.rows, a)| > 0
    ensures r.Success? ==>
      && r.value.axes == ExtensionAxes(t.header.value)
      && r.value.bounds.Keys == set a | a in r.value.axes
      && RangesFromColumns(r.value.axes, r.value.bounds, t.rows)
      && r.value.lookup == StyleLookup(t.rows)
  {
    if t.header.None? then Failure(NoHeader)
    else
      var axes := ExtensionAxes(t.header.value);
      match FirstUnnamed(t.rows)
      case Some(j) => Failure(MissingInstance(j))
      case None =>
        match FirstEmptyColumn(axes, t.rows)
        case Some(a) => Failure(EmptyColumn(a))
        case None => Success(Discovery(axes, Ranges(axes, t.rows), StyleLookup(t.rows)))
  }

  /** A lookup value under a column is one of that column's values. */
  lemma LookupValueInColumn(rows: seq<Row>, k: string, a: string)
    requires AllNamed(rows)
    requires k in StyleLookup(rows) && a in StyleLookup(rows)[k]
    ensures StyleLookup(rows)[k][a] in ColumnValues(rows, a)
  {
    var j := StyleLookupEntryFromRow(rows, k);
    assert Cell(rows[j], a) == Some(Entry(rows[j])[a]);
  }

  /** A header without an `Instance` column fails on the first row, as the
      script's `row['Instance']` does. */
  lemma MissingInstanceColumn(t: Table)
    requires Parsed(t)
    requires t.header.Some? && InstanceColumn !in t.header.value && |t.rows| > 0
    ensures Discover(t) == Failure(MissingInstance(0))
  {
    assert t.rows[0].instance.None?;
  }

  /** Every lookup entry is keyed by header fields other than `Instance`. */
  lemma LookupFieldsInHeader(t: Table)
    requires Parsed(t)
    requires Discover(t).Success?
    ensures forall k, a :: k in Discover(t).value.lookup && a in Discover(t).value.lookup[k] ==>
      a in t.header.value && a != InstanceColumn
  {
    var lookup := Discover(t).value.lookup;
    forall k, a | k in lookup && a in lookup[k] ensures a in t.header.value && a != InstanceColumn {
      var j := StyleLookupEntryFromRow(t.rows, k);
      assert a in t.rows[j].cells;
    }
  }

  /** A successful discovery satisfies the contract the later steps rely on. */
  lemma DiscoverValid(t: Table)
    requires Parsed(t)
    requires Discover(t).Success?
    ensures Valid(Discover(t).value)
  {
    var d := Discover(t).value;
    forall k, a | k in d.lookup && a in d.axes && a in d.lookup[k]
      ensures d.bounds[a].min <= d.lookup[k][a] <= d.bounds[a].max
    {
      LookupValueInColumn(t.rows, k, a);
    }
  }

  /** Of the header `Instance,Weight-e,Width` only `Weight-e` carries the marker. */
  lemma ScenarioHeader()
    ensures ExtensionAxes(["Instance", "Weight-e", "Width"]) == ["Weight-e"]
  {
    var header := ["Instance", "Weight-e", "Width"];
    assert !HasMarker("Instance") by {
      var w := "Instance";
      assert forall i | 0 <= i < |w| - 1 :: w[i] != '-';
    }
    assert HasMarker("Weight-e") by {
      assert "Weight-e"[6] == '-' && "Weight-e"[7] == 'e';
    }
    assert !HasMarker("Width") by {
      var w := "Width";
      assert forall i | 0 <= i < |w| - 1 :: w[i] != '-';
    }
    assert header[1..] == ["Weight-e", "Width"];
    assert header[1..][1..] == ["Width"];
    assert header[1..][1..][1..] == [];
  }

  /** The row `Bold,100,200` gives the lookup entry for `Bold` with both numeric cells. */
  lemma ScenarioLookup(row: Row)
    requires row == Row(Some("Bold"), map["Weight-e" := Some(100.0), "Width" := Some(200.0)])
    ensures StyleLookup([row]) == map["Bold" := map["Weight-e" := 100.0, "Width" := 200.0]]
  {
    assert Strip("Bold") == "Bold" by {
      assert !IsSpace('B') && !IsSpace('d');
      assert TrimStart("Bold") == "Bold";
      assert TrimEnd("Bold") == "Bold";
    }
    assert [row][..0] == [];
    assert Entry(row) == map["Weight-e" := 100.0, "Width" := 200.0];
  }

  /** The column `Weight-e` of the row `Bold,100,200` holds the single value 100. */
  lemma ScenarioRanges(row: Row)
    requires row == Row(Some("Bold"), map["Weight-e" := Some(100.0), "Width" := Some(200.0)])
    ensures FirstUnnamed([row]) == None
    ensures FirstEmptyColumn(["Weight-e"], [row]) == None
    ensures Ranges(["Weight-e"], [row]) == map["Weight-e" := Bounds(100.0, 100.0)]
  {
    assert ColumnValues([row], "Weight-e") == [100.0] by {
      assert [row][1..] == [];
    }
    assert SeqMin([100.0]) == 100.0 && SeqMax([100.0]) == 100.0;
  }

  /** The mapping `Instance,Weight-e,Width` with the single row `Bold,100,200`:
      one extension axis, `Weight-e`, whose range is the single value 100, and
      the lookup entry for `Bold` holds both numeric cells. */
  lemma OneRowScenario()
    ensures var t := Table(Some(["Instance", "Weight-e", "Width"]),
                           [Row(Some("Bold"), map["Weight-e" := Some(100.0), "Width" := Some(200.0)])]);
      Parsed(t) && Discover(t) == Success(Discovery(["Weight-e"], map["Weight-e" := Bounds(100.0, 100.0)],
                                       map["Bold" := map["Weight-e" := 100.0, "Width" := 200.0]]))
  {
    var row := Row(Some("Bold"), map["Weight-e" := Some(100.0), "Width" := Some(200.0)]);
    var t := Table(Some(["Instance", "Weight-e", "Width"]), [row]);
    ScenarioHeader();
    ScenarioLookup(row);
    ScenarioRanges(row);
    assert Parsed(t);
    assert Discover(t) == Success(Discovery(["Weight-e"], Ranges(["Weight-e"], [row]), StyleLookup([row])));
  }
}
