/**
 * The table printing at the end of each ProcessBytesFrom pass, reduced to
 * what can change the outcome of the pass: the widths PrintTable computes
 * and the padding lengths it passes to new string(' ', n), which throws
 * when n is negative. The text written to the console is not modelled.
 */
module Printing {
  import opened Common
  import opened Values
  import opened Tables

  /** The number of decimal digits of n. */
  function Digits(n: nat): (d: nat)
    ensures 1 <= d
    ensures n < 10 <==> d == 1
  {
    if n < 10 then 1 else 1 + Digits(n / 10)
  }

  /** The length of a cell's ToString: a Text prints its text, an Integer its decimal form, signed. */
  function CellWidth(v: Value): nat {
    match v
    case Text(s) => |s|
    case Integer(z) => if z < 0 then 1 + Digits(-(z as int)) else Digits(z as int)
  }

  /** w is at least as long as the name, every field name and every cell of t. */
  predicate Covers(t: TableValue, w: int) {
    |t.name| <= w &&
    (forall i :: 0 <= i < |t.fieldNames| ==> |t.fieldNames[i]| <= w) &&
    (forall i, j :: 0 <= i < |t.records| && 0 <= j < |t.records[i]| ==> CellWidth(t.records[i][j]) <= w)
  }

  /** w is the length of the name, of a field name or of a cell of t. */
  predicate Attained(t: TableValue, w: int) {
    w == |t.name| ||
    (exists i :: 0 <= i < |t.fieldNames| && w == |t.fieldNames[i]|) ||
    (exists i, j :: 0 <= i < |t.records| && 0 <= j < |t.records[i]| && w == CellWidth(t.records[i][j]))
  }

  /** maxFieldWidth of PrintTable: the longest of the table's name, field names and cells. */
  method MaxFieldWidth(table: Table) returns (w: int)
    ensures Covers(table.Snapshot(), w) && Attained(table.Snapshot(), w)
  {
    w := |table.name|;
    for i := 0 to |table.fieldNames|
      invariant |table.name| <= w && Attained(table.Snapshot(), w)
      invariant forall k :: 0 <= k < i ==> |table.fieldNames[k]| <= w
    {
      if |table.fieldNames[i]| > w {
        w := |table.fieldNames[i]|;
      }
    }
    for i := 0 to |table.records|
      invariant |table.name| <= w && Attained(table.Snapshot(), w)
      invariant forall k :: 0 <= k < |table.fieldNames| ==> |table.fieldNames[k]| <= w
      invariant forall k, j :: 0 <= k < i && 0 <= j < |table.records[k]| ==> CellWidth(table.records[k][j]) <= w
    {
      var record := table.records[i];
      for j := 0 to |record|
        invariant |table.name| <= w && Attained(table.Snapshot(), w)
        invariant forall k :: 0 <= k < |table.fieldNames| ==> |table.fieldNames[k]| <= w
        invariant forall k, l :: 0 <= k < i && 0 <= l < |table.records[k]| ==> CellWidth(table.records[k][l]) <= w
        invariant forall l :: 0 <= l < j ==> CellWidth(record[l]) <= w
      {
        var width := CellWidth(record[j]);
        if width > w {
          w := width;
        }
      }
    }
  }

  /** A table with n > 0 fields is wide enough for its title line. */
  lemma TitleFits(n: int, fieldWith: int, nameLength: int)
    requires n >= 1 && fieldWith >= nameLength + 1 && nameLength >= 0
    ensures n * (fieldWith + 2) + 2 - nameLength - 4 >= 1
  {
    assert n * (fieldWith + 2) >= fieldWith + 2;
  }

  /**
   * The other padding lengths of PrintTable are never negative: the divider
   * (width - 2), each field name's and each cell's (fieldWith minus its length).
   */
  lemma OtherPaddings(t: TableValue, maxFieldWidth: int)
    requires Covers(t, maxFieldWidth)
    ensures |t.fieldNames| * (maxFieldWidth + 3) >= 0
    ensures forall i :: 0 <= i < |t.fieldNames| ==> maxFieldWidth + 1 - |t.fieldNames[i]| >= 1
    ensures forall i, j :: 0 <= i < |t.records| && 0 <= j < |t.records[i]| ==>
              maxFieldWidth + 1 - CellWidth(t.records[i][j]) >= 1
  {}

  /**
   * PrintTable(table, null): the title line pads with width - |name| - 4
   * spaces, which is negative, and throws, exactly when the table has no
   * field names (OtherPaddings shows the other paddings never are).
   */
  method PrintTable(table: Table) returns (failure: Option<Error>)
    ensures failure == if table.fieldNames == [] then Some(NegativePadding) else None
  {
    var maxFieldWidth := MaxFieldWidth(table);
    var fieldWith := maxFieldWidth + 1;
    var width := |table.fieldNames| * (fieldWith + 2) + 2;
    if table.fieldNames != [] {
      TitleFits(|table.fieldNames|, fieldWith, |table.name|);
    }
    if width - |table.name| - 4 < 0 {
      return Some(NegativePadding);
    }
    failure := None;
  }

  /** Some table of the store has no field names, so printing it throws. */
  predicate Unprintable(s: StoreValue) {
    exists k :: 0 <= k < |s.tables| && s.tables[k].fieldNames == []
  }

  /** The foreach over Tables that prints each table, stopping at the first exception. */
  method PrintTables(store: Store) returns (failure: Option<Error>)
    ensures failure == if Unprintable(store.View()) then Some(NegativePadding) else None
  {
    for i := 0 to |store.tables|
      invariant forall k :: 0 <= k < i ==> store.View().tables[k].fieldNames != []
    {
      failure := PrintTable(store.tables[i]);
      if failure.Some? {
        assert store.View().tables[i].fieldNames == [];
        return;
      }
    }
    failure := None;
  }
}
