/**
 * The per-row logic of `FeatureClass<T>`, with the store abstracted as maps
 * from field name to a possibly-null value: materialising a record from a
 * row, writing a record's editable columns back into a row, the query and
 * update passes over a cursor's rows, and `Insert` through one reused row
 * buffer.
 *
 * `Convert.ChangeType`, `GetType()` and `typeof(T)` are the parameters of
 * `Runtime`; the store's answers (the rows a filter selects, the object ids
 * it allocates) are inputs.
 */
module Rows {
  import opened Wrappers
  import opened Errors
  import opened Mappings
  import opened Features

  /** A row or row buffer: column name to value, `None` for null. */
  type Columns<V> = map<string, Option<V>>

  /** A record of type `T`: property name to value, `None` for null. */
  type Record<V> = map<string, Option<V>>

  /** `p.GetValue(item)`: a property the map does not hold reads as null. */
  function ValueOf<V>(item: Record<V>, name: string): Option<V> {
    if name in item then item[name] else None
  }

  /**
   * What the runtime contributes: `Convert.ChangeType(value, type)` (`None`
   * when it throws), the name of a value's type, and the name of `T`.
   */
  datatype Runtime<!V> = Runtime(changeType: (V, string) -> Option<V>, typeName: V -> string, recordType: string)

  /** The cursor fetches every mapped column (the read filter's `SubFields`). */
  predicate HasColumns<V>(bs: seq<Binding>, row: Columns<V>) {
    forall i :: 0 <= i < |bs| ==> bs[i].field.name in row
  }

  /** No two bindings share a property or a field; true of every mapping the constructor builds. */
  predicate DistinctBindings(bs: seq<Binding>) {
    forall i, j :: 0 <= i < j < |bs| ==> bs[i].property.name != bs[j].property.name && bs[i].field.name != bs[j].field.name
  }

  /** The column `c` is the field of some editable binding. */
  predicate EditableColumn(bs: seq<Binding>, c: string) {
    exists i :: 0 <= i < |bs| && bs[i].field.isEditable && bs[i].field.name == c
  }

  /** A binding whose value is null, or converts and has a setter, is assigned without error. */
  predicate Converts<V>(b: Binding, row: Columns<V>, rt: Runtime<V>)
    requires b.field.name in row
  {
    var v := row[b.field.name];
    v.None? || (rt.changeType(v.value, Underlying(b.property.propertyType)).Some? && b.property.hasSetter)
  }

  /** The error raised for a binding that does not convert: value type, property type, `T` and property name. */
  function ConversionError<V>(b: Binding, row: Columns<V>, rt: Runtime<V>): Error
    requires b.field.name in row && row[b.field.name].Some?
  {
    ConversionFailed(rt.typeName(row[b.field.name].value), TypeDisplay(b.property.propertyType), rt.recordType, b.property.name)
  }

  /** The materialisation loop over the bindings, in mapping order, starting from `item`. */
  function MaterializeFrom<V>(bs: seq<Binding>, row: Columns<V>, rt: Runtime<V>, item: Record<V>): Result<Record<V>, Error>
    requires HasColumns(bs, row)
    decreases |bs|
  {
    if bs == [] then Success(item)
    else
      var b := bs[0];
      assert HasColumns(bs[1..], row) by {
        forall i | 0 <= i < |bs[1..]| ensures bs[1..][i].field.name in row {
          assert bs[1..][i] == bs[i + 1];
        }
      }
      var v := row[b.field.name];
      if v.None? then MaterializeFrom(bs[1..], row, rt, item)
      else
        var c := rt.changeType(v.value, Underlying(b.property.propertyType));
        if c.None? || !b.property.hasSetter then Failure(ConversionError(b, row, rt))
        else MaterializeFrom(bs[1..], row, rt, item[b.property.name := c])
  }

  /**
   * Materialisation fails exactly when some binding does not convert, and
   * then with the error of the first such binding.
   */
  lemma {:induction false} MaterializeOutcome<V>(bs: seq<Binding>, row: Columns<V>, rt: Runtime<V>, item: Record<V>)
    requires HasColumns(bs, row)
    ensures MaterializeFrom(bs, row, rt, item).Success? <==> forall i :: 0 <= i < |bs| ==> Converts(bs[i], row, rt)
    ensures forall k :: 0 <= k < |bs| && !Converts(bs[k], row, rt) && (forall j :: 0 <= j < k ==> Converts(bs[j], row, rt)) ==>
      MaterializeFrom(bs, row, rt, item) == Failure(ConversionError(bs[k], row, rt))
    decreases |bs|
  {
    if bs != [] {
      var b := bs[0];
      assert HasColumns(bs[1..], row) by {
        forall i | 0 <= i < |bs[1..]| ensures bs[1..][i].field.name in row {
          assert bs[1..][i] == bs[i + 1];
        }
      }
      var v := row[b.field.name];
      var next := if v.None? then item else item[b.property.name := rt.changeType(v.value, Underlying(b.property.propertyType))];
      MaterializeOutcome(bs[1..], row, rt, next);
      forall k | 1 <= k < |bs| ensures bs[1..][k - 1] == bs[k] { }
      if Converts(b, row, rt) {
        assert MaterializeFrom(bs, row, rt, item) == MaterializeFrom(bs[1..], row, rt, next);
      }
    }
  }

  /**
   * On success each mapped property holds its converted column value, or,
   * when the column is null, whatever `item` held (the uninitialised
   * object's default); no other property is touched.
   */
  lemma {:induction false} MaterializedValues<V>(bs: seq<Binding>, row: Columns<V>, rt: Runtime<V>, item: Record<V>)
    requires HasColumns(bs, row) && DistinctBindings(bs)
    requires MaterializeFrom(bs, row, rt, item).Success?
    ensures forall i :: 0 <= i < |bs| ==>
      var v := row[bs[i].field.name];
      ValueOf(MaterializeFrom(bs, row, rt, item).value, bs[i].property.name) ==
        if v.None? then ValueOf(item, bs[i].property.name) else rt.changeType(v.value, Underlying(bs[i].property.propertyType))
    ensures forall n :: (forall i :: 0 <= i < |bs| ==> bs[i].property.name != n) ==>
      ValueOf(MaterializeFrom(bs, row, rt, item).value, n) == ValueOf(item, n)
    decreases |bs|
  {
    if bs != [] {
      var b := bs[0];
      assert HasColumns(bs[1..], row) by {
        forall i | 0 <= i < |bs[1..]| ensures bs[1..][i].field.name in row {
          assert bs[1..][i] == bs[i + 1];
        }
      }
      var v := row[b.field.name];
      var next := if v.None? then item else item[b.property.name := rt.changeType(v.value, Underlying(b.property.propertyType))];
      assert DistinctBindings(bs[1..]) by {
        forall i, j | 0 <= i < j < |bs[1..]| ensures bs[1..][i].property.name != bs[1..][j].property.name && bs[1..][i].field.name != bs[1..][j].field.name {
          assert bs[1..][i] == bs[i + 1] && bs[1..][j] == bs[j + 1];
        }
      }
      assert MaterializeFrom(bs, row, rt, item) == MaterializeFrom(bs[1..], row, rt, next);
      MaterializedValues(bs[1..], row, rt, next);
      var r := MaterializeFrom(bs, row, rt, item).value;
      forall i | 1 <= i < |bs| ensures bs[1..][i - 1] == bs[i] && bs[i].property.name != b.property.name {
        assert bs[0].property.name != bs[i].property.name;
      }
    }
  }

  /** The row's values applied to a fresh record: the `foreach` over the mapped properties in `IterateCursor`. */
  method Materialize<V>(m: Mapping, row: Columns<V>, rt: Runtime<V>, blank: Record<V>) returns (r: Result<Record<V>, Error>)
    requires HasColumns(Bindings(m), row)
    ensures r == MaterializeFrom(Bindings(m), row, rt, blank)
  {
    var bs := Bindings(m);
    var item := blank;
    var i := 0;
    while i < |bs|
      invariant 0 <= i <= |bs|
      invariant HasColumns(bs[i..], row)
      invariant MaterializeFrom(bs[i..], row, rt, item) == MaterializeFrom(bs, row, rt, blank)
    {
      var b := bs[i];
      assert bs[i..][1..] == bs[i + 1..];
      var value := row[b.field.name];
      if value.Some? {
        var converted := rt.changeType(value.value, Underlying(b.property.propertyType));
        if converted.None? || !b.property.hasSetter {
          return Failure(ConversionError(b, row, rt));
        }
        item := item[b.property.name := converted];
      }
      i := i + 1;
    }
    assert bs[i..] == [];
    return Success(item);
  }

  /** The write-back loop: each editable mapped column set to the record's property value, in mapping order. */
  function WrittenFrom<V>(bs: seq<Binding>, cols: Columns<V>, item: Record<V>): Columns<V>
    decreases |bs|
  {
    if bs == [] then cols
    else
      var b := bs[0];
      WrittenFrom(bs[1..], if b.field.isEditable then cols[b.field.name := ValueOf(item, b.property.name)] else cols, item)
  }

  /**
   * After writing back, every editable mapped column holds the record's
   * value for its property, and every other column (the object id, columns
   * the mapping does not name, read-only columns) is as it was.
   */
  lemma {:induction false} WrittenColumns<V>(bs: seq<Binding>, cols: Columns<V>, item: Record<V>)
    requires DistinctBindings(bs)
    ensures forall i :: 0 <= i < |bs| && bs[i].field.isEditable ==>
      bs[i].field.name in WrittenFrom(bs, cols, item) && WrittenFrom(bs, cols, item)[bs[i].field.name] == ValueOf(item, bs[i].property.name)
    ensures forall c :: c in WrittenFrom(bs, cols, item) <==> c in cols || EditableColumn(bs, c)
    ensures forall c :: c in cols && !EditableColumn(bs, c) ==> WrittenFrom(bs, cols, item)[c] == cols[c]
    decreases |bs|
  {
    if bs != [] {
      var b := bs[0];
      var next := if b.field.isEditable then cols[b.field.name := ValueOf(item, b.property.name)] else cols;
      assert DistinctBindings(bs[1..]) by {
        forall i, j | 0 <= i < j < |bs[1..]| ensures bs[1..][i].property.name != bs[1..][j].property.name && bs[1..][i].field.name != bs[1..][j].field.name {
          assert bs[1..][i] == bs[i + 1] && bs[1..][j] == bs[j + 1];
        }
      }
      WrittenColumns(bs[1..], next, item);
      var w := WrittenFrom(bs, cols, item);
      forall i | 1 <= i < |bs| ensures bs[1..][i - 1] == bs[i] && bs[i].field.name != b.field.name {
        assert bs[0].field.name != bs[i].field.name;
      }
      forall c ensures EditableColumn(bs, c) <==> (b.field.isEditable && b.field.name == c) || EditableColumn(bs[1..], c) {
        if EditableColumn(bs, c) {
          var i :| 0 <= i < |bs| && bs[i].field.isEditable && bs[i].field.name == c;
          if i > 0 { assert bs[1..][i - 1] == bs[i]; }
        }
        if EditableColumn(bs[1..], c) {
          var i :| 0 <= i < |bs[1..]| && bs[1..][i].field.isEditable && bs[1..][i].field.name == c;
          assert bs[i + 1] == bs[1..][i];
        }
      }
      if b.field.isEditable {
        assert !EditableColumn(bs[1..], b.field.name);
      }
    }
  }

  /** A store row, or the reusable row buffer of an insert: columns assigned in place, and the state last stored. */
  class Row<V> {
    var columns: Columns<V>
    var stored: Option<Columns<V>>

    constructor(columns: Columns<V>)
      ensures this.columns == columns && stored == None
    {
      this.columns := columns;
      stored := None;
    }

    /** `row.Store()`: the current columns persisted. */
    method Store()
      modifies this
      ensures columns == old(columns) && stored == Some(columns)
    {
      stored := Some(columns);
    }
  }

  /** The editable mapped columns of `row` assigned from `item`, as in `IterateCursor`'s edit branch and in `Insert`. */
  method WriteBack<V>(row: Row<V>, m: Mapping, item: Record<V>)
    modifies row
    ensures row.columns == WrittenFrom(Bindings(m), old(row.columns), item)
    ensures row.stored == old(row.stored)
  {
    var bs := Bindings(m);
    var i := 0;
    while i < |bs|
      invariant 0 <= i <= |bs|
      invariant row.stored == old(row.stored)
      invariant WrittenFrom(bs[i..], row.columns, item) == WrittenFrom(bs, old(row.columns), item)
    {
      var b := bs[i];
      assert bs[i..][1..] == bs[i + 1..];
      if b.field.isEditable {
        row.columns := row.columns[b.field.name := ValueOf(item, b.property.name)];
      }
      i := i + 1;
    }
    assert bs[i..] == [];
  }

  /**
   * Writing back a record just materialised from a row, unedited, under an
   * identity conversion: each editable column holding a value gets that
   * value again, while a null column gets the record's default for its
   * property, which is null only for reference and `Nullable` properties.
   */
  lemma RoundTrip<V>(m: Mapping, row: Columns<V>, rt: Runtime<V>, blank: Record<V>)
    requires HasColumns(Bindings(m), row) && DistinctBindings(Bindings(m))
    requires forall v, t :: rt.changeType(v, t) == Some(v)
    requires MaterializeFrom(Bindings(m), row, rt, blank).Success?
    ensures
      var bs := Bindings(m);
      var w := WrittenFrom(bs, row, MaterializeFrom(bs, row, rt, blank).value);
      forall i :: 0 <= i < |bs| && bs[i].field.isEditable ==>
        bs[i].field.name in w && w[bs[i].field.name] == if row[bs[i].field.name].Some? then row[bs[i].field.name] else ValueOf(blank, bs[i].property.name)
  {
    var bs := Bindings(m);
    MaterializedValues(bs, row, rt, blank);
    WrittenColumns(bs, row, MaterializeFrom(bs, row, rt, blank).value);
  }

  /**
   * Reading back a record just written into a row, under an identity
   * conversion and with every mapped property settable: the read succeeds,
   * each editable property holds the record's value, or the default when
   * that value is null, and each read-only property holds what the row held.
   */
  lemma RecordRoundTrip<V>(m: Mapping, row: Columns<V>, item: Record<V>, rt: Runtime<V>, blank: Record<V>)
    requires HasColumns(Bindings(m), row) && DistinctBindings(Bindings(m))
    requires forall v, t :: rt.changeType(v, t) == Some(v)
    requires forall i :: 0 <= i < |Bindings(m)| ==> Bindings(m)[i].property.hasSetter
    ensures
      var bs := Bindings(m);
      var w := WrittenFrom(bs, row, item);
      && HasColumns(bs, w)
      && MaterializeFrom(bs, w, rt, blank).Success?
      && (forall i :: 0 <= i < |bs| && bs[i].field.isEditable ==>
            var n := bs[i].property.name;
            ValueOf(MaterializeFrom(bs, w, rt, blank).value, n) == if ValueOf(item, n).Some? then ValueOf(item, n) else ValueOf(blank, n))
      && (forall i :: 0 <= i < |bs| && !bs[i].field.isEditable ==>
            var n := bs[i].property.name;
            ValueOf(MaterializeFrom(bs, w, rt, blank).value, n) == if row[bs[i].field.name].Some? then row[bs[i].field.name] else ValueOf(blank, n))
  {
    var bs := Bindings(m);
    var w := WrittenFrom(bs, row, item);
    WrittenColumns(bs, row, item);
    assert HasColumns(bs, w);
    forall i | 0 <= i < |bs| && !bs[i].field.isEditable
      ensures !EditableColumn(bs, bs[i].field.name) && w[bs[i].field.name] == row[bs[i].field.name]
    {
      forall j | 0 <= j < |bs| && bs[j].field.isEditable
        ensures bs[j].field.name != bs[i].field.name
      {
        assert i != j;
      }
    }
    MaterializeOutcome(bs, w, rt, blank);
    MaterializedValues(bs, w, rt, blank);
  }

  /** `Query()`: the cursor's rows materialised in order; the records yielded before the first failing row, and its error. */
  method Query<V>(m: Mapping, rows: seq<Columns<V>>, rt: Runtime<V>, blank: Record<V>) returns (items: seq<Record<V>>, error: Option<Error>)
    requires forall i :: 0 <= i < |rows| ==> HasColumns(Bindings(m), rows[i])
    ensures |items| <= |rows|
    ensures forall i :: 0 <= i < |items| ==> MaterializeFrom(Bindings(m), rows[i], rt, blank) == Success(items[i])
    ensures error.None? <==> |items| == |rows|
    ensures error.Some? ==> MaterializeFrom(Bindings(m), rows[|items|], rt, blank) == Failure(error.value)
  {
    items := [];
    var i := 0;
    while i < |rows|
      invariant 0 <= i <= |rows| && |items| == i
      invariant forall j :: 0 <= j < i ==> MaterializeFrom(Bindings(m), rows[j], rt, blank) == Success(items[j])
    {
      var r := Materialize(m, rows[i], rt, blank);
      if r.Failure? {
        return items, Some(r.error);
      }
      items := items + [r.value];
      i := i + 1;
    }
    return items, None;
  }

  /** The rows of an update pass are distinct objects. */
  predicate DistinctRows<V>(rows: seq<Row<V>>) {
    forall i, j :: 0 <= i < j < |rows| ==> rows[i] != rows[j]
  }

  /**
   * `Update(edit)`: each row materialised, edited, its editable columns
   * written back and the row stored, in order; a failing row ends the pass
   * with the rows before it already stored and the rows after it untouched.
   * `Update(Action<T>)` is the same pass with an edit that returns its argument.
   */
  method Update<V>(m: Mapping, rows: seq<Row<V>>, edit: Record<V> -> Record<V>, rt: Runtime<V>, blank: Record<V>)
    returns (edited: seq<Record<V>>, error: Option<Error>)
    requires DistinctRows(rows)
    requires forall i :: 0 <= i < |rows| ==> HasColumns(Bindings(m), rows[i].columns)
    modifies set i | 0 <= i < |rows| :: rows[i]
    ensures |edited| <= |rows|
    ensures error.None? <==> |edited| == |rows|
    ensures forall i :: 0 <= i < |edited| ==>
      && MaterializeFrom(Bindings(m), old(rows[i].columns), rt, blank).Success?
      && edited[i] == edit(MaterializeFrom(Bindings(m), old(rows[i].columns), rt, blank).value)
      && rows[i].columns == WrittenFrom(Bindings(m), old(rows[i].columns), edited[i])
      && rows[i].stored == Some(rows[i].columns)
    ensures error.Some? ==> MaterializeFrom(Bindings(m), old(rows[|edited|].columns), rt, blank) == Failure(error.value)
    ensures forall i :: |edited| <= i < |rows| ==> rows[i].columns == old(rows[i].columns) && rows[i].stored == old(rows[i].stored)
  {
    edited := [];
    var i := 0;
    while i < |rows|
      invariant 0 <= i <= |rows| && |edited| == i
      invariant forall j :: 0 <= j < i ==>
        && MaterializeFrom(Bindings(m), old(rows[j].columns), rt, blank).Success?
        && edited[j] == edit(MaterializeFrom(Bindings(m), old(rows[j].columns), rt, blank).value)
        && rows[j].columns == WrittenFrom(Bindings(m), old(rows[j].columns), edited[j])
        && rows[j].stored == Some(rows[j].columns)
      invariant forall j :: i <= j < |rows| ==> rows[j].columns == old(rows[j].columns) && rows[j].stored == old(rows[j].stored)
    {
      var row := rows[i];
      var r := Materialize(m, row.columns, rt, blank);
      if r.Failure? {
        return edited, Some(r.error);
      }
      var after := edit(r.value);
      WriteBack(row, m, after);
      row.Store();
      edited := edited + [after];
      i := i + 1;
    }
    return edited, None;
  }

  /** The range of `int`, which `Convert.ToInt32` enforces on the store's object ids. */
  predicate InInt32(x: int) {
    -0x8000_0000 <= x <= 0x7FFF_FFFF
  }

  /** The `count` consecutive object ids from `first` are all in the `int` range. */
  predicate IdsInInt32(first: int, count: nat) {
    count == 0 || (InInt32(first) && InInt32(first + count - 1))
  }

  /**
   * The store's insert cursor: the buffer states it received, in order. It
   * allocates object ids sequentially from `nextOid`, a stand-in for the
   * store's own allocation.
   */
  class InsertCursor<V> {
    var inserted: seq<Columns<V>>
    var nextOid: int

    constructor(firstOid: int)
      ensures inserted == [] && nextOid == firstOid
    {
      inserted := [];
      nextOid := firstOid;
    }

    /** `insertCursor.Insert(rowBuffer)`: a copy of the buffer's columns inserted, and its object id returned. */
    method Insert(buffer: Row<V>) returns (oid: int)
      modifies this
      ensures inserted == old(inserted) + [buffer.columns]
      ensures oid == old(nextOid) && nextOid == old(nextOid) + 1
    {
      inserted := inserted + [buffer.columns];
      oid := nextOid;
      nextOid := nextOid + 1;
    }
  }

  /** The reused buffer after the editable columns of each item were written into it in turn. */
  function BufferAfter<V>(bs: seq<Binding>, buffer: Columns<V>, items: seq<Record<V>>): Columns<V>
    decreases |items|
  {
    if items == [] then buffer
    else WrittenFrom(bs, BufferAfter(bs, buffer, items[..|items| - 1]), items[|items| - 1])
  }

  /** The buffer states handed to the insert cursor, one per item. */
  function BufferStates<V>(bs: seq<Binding>, buffer: Columns<V>, items: seq<Record<V>>): seq<Columns<V>>
    decreases |items|
  {
    if items == [] then []
    else BufferStates(bs, buffer, items[..|items| - 1]) + [BufferAfter(bs, buffer, items)]
  }

  lemma {:induction false} BufferStatesAt<V>(bs: seq<Binding>, buffer: Columns<V>, items: seq<Record<V>>)
    ensures |BufferStates(bs, buffer, items)| == |items|
    ensures forall k :: 0 <= k < |items| ==> BufferStates(bs, buffer, items)[k] == BufferAfter(bs, buffer, items[..k + 1])
    decreases |items|
  {
    if items != [] {
      var n := |items| - 1;
      BufferStatesAt(bs, buffer, items[..n]);
      assert items[..n + 1] == items;
      forall k | 0 <= k < n ensures BufferStates(bs, buffer, items)[k] == BufferAfter(bs, buffer, items[..k + 1]) {
        assert items[..n][..k + 1] == items[..k + 1];
      }
    }
  }

  /** One more item: the buffer gets that item written into it, and its state is appended. */
  lemma BufferStep<V>(bs: seq<Binding>, buffer: Columns<V>, items: seq<Record<V>>, i: nat)
    requires i < |items|
    ensures BufferAfter(bs, buffer, items[..i + 1]) == WrittenFrom(bs, BufferAfter(bs, buffer, items[..i]), items[i])
    ensures BufferStates(bs, buffer, items[..i + 1]) == BufferStates(bs, buffer, items[..i]) + [BufferAfter(bs, buffer, items[..i + 1])]
  {
    assert items[..i + 1][..i] == items[..i] && items[..i + 1][i] == items[i];
  }

  /** Columns outside the editable mapped ones keep the fresh buffer's values through any number of items. */
  lemma {:induction false} BufferAfterKeeps<V>(bs: seq<Binding>, buffer: Columns<V>, items: seq<Record<V>>, c: string)
    requires DistinctBindings(bs)
    requires c in buffer && !EditableColumn(bs, c)
    ensures c in BufferAfter(bs, buffer, items) && BufferAfter(bs, buffer, items)[c] == buffer[c]
    decreases |items|
  {
    if items != [] {
      BufferAfterKeeps(bs, buffer, items[..|items| - 1], c);
      WrittenColumns(bs, BufferAfter(bs, buffer, items[..|items| - 1]), items[|items| - 1]);
    }
  }

  /**
   * Reusing one buffer leaks nothing between items: the state inserted for
   * the k-th item holds that item's value in every editable mapped column,
   * and the fresh buffer's value in every other column it has.
   */
  lemma BufferStatesSpec<V>(bs: seq<Binding>, buffer: Columns<V>, items: seq<Record<V>>, k: nat)
    requires DistinctBindings(bs)
    requires k < |items|
    ensures |BufferStates(bs, buffer, items)| == |items|
    ensures forall i :: 0 <= i < |bs| && bs[i].field.isEditable ==>
      var s := BufferStates(bs, buffer, items)[k];
      bs[i].field.name in s && s[bs[i].field.name] == ValueOf(items[k], bs[i].property.name)
    ensures forall c :: c in buffer && !EditableColumn(bs, c) ==>
      var s := BufferStates(bs, buffer, items)[k];
      c in s && s[c] == buffer[c]
  {
    BufferStatesAt(bs, buffer, items);
    var prefix := items[..k + 1];
    assert prefix[..k] == items[..k] && prefix[k] == items[k];
    WrittenColumns(bs, BufferAfter(bs, buffer, items[..k]), items[k]);
    forall c | c in buffer && !EditableColumn(bs, c) ensures c in BufferStates(bs, buffer, items)[k] && BufferStates(bs, buffer, items)[k][c] == buffer[c] {
      BufferAfterKeeps(bs, buffer, items[..k], c);
    }
  }

  /**
   * `Insert(items)`: each item's editable columns written into one buffer
   * created from `blankBuffer`, the buffer inserted, and its object id
   * collected as an `int` — one per item, in item order. An id outside the
   * `int` range ends the loop with an overflow after its row was inserted.
   */
  method InsertAll<V>(m: Mapping, items: seq<Record<V>>, blankBuffer: Columns<V>, cursor: InsertCursor<V>)
    returns (r: Result<seq<int>, Error>, ghost n: nat)
    modifies cursor
    ensures n <= |items|
    ensures cursor.inserted == old(cursor.inserted) + BufferStates(Bindings(m), blankBuffer, items[..n])
    ensures |cursor.inserted| == |old(cursor.inserted)| + n
    ensures cursor.nextOid == old(cursor.nextOid) + n
    ensures r.Success? <==> IdsInInt32(old(cursor.nextOid), |items|)
    ensures r.Success? ==> n == |items| && |r.value| == |items| && forall k :: 0 <= k < |items| ==> r.value[k] == old(cursor.nextOid) + k
    ensures r.Failure? ==>
      && n >= 1
      && r.error == Overflow(old(cursor.nextOid) + n - 1)
      && !InInt32(old(cursor.nextOid) + n - 1)
      && IdsInInt32(old(cursor.nextOid), n - 1)
  {
    ghost var first, before := cursor.nextOid, cursor.inserted;
    var buffer := new Row(blankBuffer);
    var oids: seq<int> := [];
    var i := 0;
    while i < |items|
      invariant 0 <= i <= |items| && |oids| == i
      invariant buffer.columns == BufferAfter(Bindings(m), blankBuffer, items[..i])
      invariant cursor.inserted == before + BufferStates(Bindings(m), blankBuffer, items[..i])
      invariant |BufferStates(Bindings(m), blankBuffer, items[..i])| == i
      invariant cursor.nextOid == first + i
      invariant forall k :: 0 <= k < i ==> oids[k] == first + k
      invariant IdsInInt32(first, i)
    {
      BufferStep(Bindings(m), blankBuffer, items, i);
      WriteBack(buffer, m, items[i]);
      var oid := cursor.Insert(buffer);
      i := i + 1;
      if !InInt32(oid) {
        return Failure(Overflow(oid)), i;
      }
      oids := oids + [oid];
    }
    assert items[..i] == items;
    return Success(oids), i;
  }

  /**
   * `Single()` over the lazily materialised rows of a query: the first row
   * is materialised, then a second one is looked for, and materialised,
   * before it can be reported; nothing past the second row is read.
   */
  function SingleRecord<V>(m: Mapping, rows: seq<Columns<V>>, rt: Runtime<V>, blank: Record<V>): (r: Result<Record<V>, Error>)
    requires forall i :: 0 <= i < |rows| ==> HasColumns(Bindings(m), rows[i])
    ensures |rows| == 0 ==> r == Failure(NoMatchingElement)
    ensures |rows| == 1 ==> r == MaterializeFrom(Bindings(m), rows[0], rt, blank)
    ensures |rows| >= 2 ==>
      r == if MaterializeFrom(Bindings(m), rows[0], rt, blank).Failure? then MaterializeFrom(Bindings(m), rows[0], rt, blank)
           else if MaterializeFrom(Bindings(m), rows[1], rt, blank).Failure? then Failure(MaterializeFrom(Bindings(m), rows[1], rt, blank).error)
           else Failure(MoreThanOneMatchingElement)
  {
    if |rows| == 0 then Failure(NoMatchingElement)
    else
      var first :- MaterializeFrom(Bindings(m), rows[0], rt, blank);
      if |rows| == 1 then Success(first)
      else
        var second :- MaterializeFrom(Bindings(m), rows[1], rt, blank);
        Failure(MoreThanOneMatchingElement)
  }

  /**
   * `Insert(item)`: the item inserted alone, then re-read through a copy of
   * the receiver filtered on the new object id. `requeried` is what the store
   * returns for that descriptor; the result is the descriptor and the single
   * record read back.
   */
  method InsertOne<V>(fc: FeatureClass, item: Record<V>, blankBuffer: Columns<V>, cursor: InsertCursor<V>,
                      requeried: seq<Columns<V>>, rt: Runtime<V>, blank: Record<V>)
    returns (r: Result<(FeatureClass, Record<V>), Error>)
    requires forall i :: 0 <= i < |requeried| ==> HasColumns(Bindings(fc.mapping), requeried[i])
    modifies cursor
    ensures cursor.inserted == old(cursor.inserted) + [WrittenFrom(Bindings(fc.mapping), blankBuffer, item)]
    ensures !InInt32(old(cursor.nextOid)) ==> r == Failure(Overflow(old(cursor.nextOid)))
    ensures InInt32(old(cursor.nextOid)) && SingleRecord(fc.mapping, requeried, rt, blank).Success? ==>
      r == Success((fc.InsertedRowQuery(old(cursor.nextOid)), SingleRecord(fc.mapping, requeried, rt, blank).value))
    ensures InInt32(old(cursor.nextOid)) && SingleRecord(fc.mapping, requeried, rt, blank).Failure? ==>
      r == Failure(SingleRecord(fc.mapping, requeried, rt, blank).error)
  {
    SingleBufferState(Bindings(fc.mapping), blankBuffer, item);
    ghost var n: nat;
    var inserted;
    inserted, n := InsertAll(fc.mapping, [item], blankBuffer, cursor);
    assert [item][..1] == [item];
    if inserted.Failure? {
      return Failure(inserted.error);
    }
    var oids := inserted.value;
    var query := fc.InsertedRowQuery(oids[0]);
    var record := SingleRecord(query.mapping, requeried, rt, blank);
    if record.Failure? {
      return Failure(record.error);
    }
    return Success((query, record.value));
  }

  /** A single item leaves one buffer state: the fresh buffer with the item written into it. */
  lemma SingleBufferState<V>(bs: seq<Binding>, buffer: Columns<V>, item: Record<V>)
    ensures BufferStates(bs, buffer, [item]) == [WrittenFrom(bs, buffer, item)]
  {
    assert [item][..0] == [];
    assert BufferAfter(bs, buffer, [item]) == WrittenFrom(bs, buffer, item);
    assert BufferStates(bs, buffer, [item]) == BufferStates(bs, buffer, []) + [BufferAfter(bs, buffer, [item])];
  }
}
