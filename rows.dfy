/**
 * The data the copy engine moves: column metadata, source rows, and the typed
 * positional parameters bound into each target insert.
 */
module Rows {

  /** A scalar column value as a result set hands it out. */
  datatype Value =
    | Null
    | Integer(i: int)
    | Decimal(unscaled: int, scale: int)
    | Text(s: string)
    | Boolean(b: bool)
    | Binary(bytes: seq<bv8>)
    | Timestamp(epochMillis: int)

  /** One column of result metadata: its name and its SQL type code. */
  datatype Column = Column(name: string, sqlType: int)

  /** One source row: a value per column, in column order. */
  type Row = seq<Value>

  /** One bound statement parameter: the value and the SQL type code it is bound with. */
  datatype Param = Param(value: Value, sqlType: int)

  /** The parameters of one executed insert, in parameter order. */
  type BoundRow = seq<Param>

  /** The source table as the select query sees it: metadata and rows in cursor order. */
  datatype Table = Table(columns: seq<Column>, rows: seq<Row>)

  /** Every row has one value per column, as a result set guarantees. */
  predicate WellFormed(t: Table)
  {
    forall k :: 0 <= k < |t.rows| ==> |t.rows[k]| == |t.columns|
  }

  function ColumnNames(columns: seq<Column>): seq<string>
  {
    seq(|columns|, i requires 0 <= i < |columns| => columns[i].name)
  }

  function ColumnTypes(columns: seq<Column>): seq<int>
  {
    seq(|columns|, i requires 0 <= i < |columns| => columns[i].sqlType)
  }

  /** Positional binding: parameter i is value i of the row with type code i. */
  function Bind(row: Row, types: seq<int>): BoundRow
    requires |row| == |types|
  {
    seq(|row|, i requires 0 <= i < |row| => Param(row[i], types[i]))
  }

  predicate RowsFit(rows: seq<Row>, types: seq<int>)
  {
    forall k :: 0 <= k < |rows| ==> |rows[k]| == |types|
  }

  /** The inserts that copying `rows` in order produces, one per row. */
  function BindAll(rows: seq<Row>, types: seq<int>): seq<BoundRow>
    requires RowsFit(rows, types)
  {
    if |rows| == 0 then []
    else
      var init := rows[..|rows| - 1];
      assert RowsFit(init, types) by {
        forall j | 0 <= j < |init| ensures |init[j]| == |types| { assert init[j] == rows[j]; }
      }
      BindAll(init, types) + [Bind(rows[|rows| - 1], types)]
  }

  /**
   * Reads the metadata in column order into the name and type lists, as the
   * loop over `getColumnName(i)` / `getColumnType(i)` does.
   */
  method ReadColumns(metadata: seq<Column>) returns (names: seq<string>, types: seq<int>)
    ensures |names| == |metadata| && |types| == |metadata|
    ensures forall i :: 0 <= i < |metadata| ==> names[i] == metadata[i].name && types[i] == metadata[i].sqlType
    ensures names == ColumnNames(metadata) && types == ColumnTypes(metadata)
  {
    names, types := [], [];
    for i := 0 to |metadata|
      invariant |names| == i && |types| == i
      invariant forall j :: 0 <= j < i ==> names[j] == metadata[j].name && types[j] == metadata[j].sqlType
    {
      names := names + [metadata[i].name];
      types := types + [metadata[i].sqlType];
    }
  }

  /** Copying one more row appends exactly that row's insert. */
  lemma BindAllSnoc(rows: seq<Row>, types: seq<int>, k: nat)
    requires RowsFit(rows, types) && k < |rows|
    ensures RowsFit(rows[..k], types) && RowsFit(rows[..k + 1], types)
    ensures BindAll(rows[..k + 1], types) == BindAll(rows[..k], types) + [Bind(rows[k], types)]
  {
    var shorter := rows[..k];
    assert RowsFit(shorter, types) by {
      forall j | 0 <= j < k ensures |shorter[j]| == |types| { assert shorter[j] == rows[j]; }
    }
    var longer := rows[..k + 1];
    assert RowsFit(longer, types) by {
      forall j | 0 <= j < k + 1 ensures |longer[j]| == |types| { assert longer[j] == rows[j]; }
    }
    assert longer[..k] == shorter;
  }

  /**
   * Copying rows in order gives one insert per row, and the k-th insert binds
   * the k-th row: no row is left out, repeated or moved.
   */
  lemma {:induction false} BindAllAt(rows: seq<Row>, types: seq<int>, k: nat)
    requires RowsFit(rows, types) && k < |rows|
    ensures |BindAll(rows, types)| == |rows|
    ensures BindAll(rows, types)[k] == Bind(rows[k], types)
  {
    var m := |rows| - 1;
    BindAllSnoc(rows, types, m);
    assert rows[..m + 1] == rows;
    if k < m {
      BindAllAt(rows[..m], types, k);
    } else {
      BindAllLength(rows[..m], types);
    }
  }

  lemma {:induction false} BindAllLength(rows: seq<Row>, types: seq<int>)
    requires RowsFit(rows, types)
    ensures |BindAll(rows, types)| == |rows|
  {
    if |rows| > 0 {
      var m := |rows| - 1;
      BindAllSnoc(rows, types, m);
      assert rows[..m + 1] == rows;
      BindAllLength(rows[..m], types);
    }
  }

  /** `s` reordered by `order`: element i of the result is element order[i] of `s`. */
  function Reorder<T>(s: seq<T>, order: seq<nat>): seq<T>
    requires forall i :: 0 <= i < |order| ==> order[i] < |s|
  {
    seq(|order|, i requires 0 <= i < |order| => s[order[i]])
  }

  /**
   * Binding is by position only: reordering the source columns (values and
   * type codes together) reorders the bound parameters in the same way.
   */
  lemma BindReordered(row: Row, types: seq<int>, order: seq<nat>)
    requires |row| == |types|
    requires forall i :: 0 <= i < |order| ==> order[i] < |row|
    ensures |Reorder(row, order)| == |Reorder(types, order)|
    ensures Bind(Reorder(row, order), Reorder(types, order)) == Reorder(Bind(row, types), order)
  {
  }

  /** With columns (id, name) swapped to (name, id), the two bound parameters swap. */
  lemma SwappedColumns(id: Value, name: Value, idType: int, nameType: int)
    ensures Bind([name, id], [nameType, idType]) == [Param(name, nameType), Param(id, idType)]
    ensures Bind([id, name], [idType, nameType]) == [Param(id, idType), Param(name, nameType)]
  {
  }
}
