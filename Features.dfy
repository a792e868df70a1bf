/**
 * `FeatureClass<T>` as a query descriptor: an immutable value holding the
 * where clauses, the order-by clauses and the spatial filter. `Where`,
 * `WhereGeometry` and `OrderBy` return a new descriptor by copy-and-extend;
 * `ReadFilter` and `DeleteFilter` compose what is handed to the store.
 */
module Features {
  import opened Wrappers
  import opened Errors
  import opened Text
  import opened Dictionaries
  import opened Mappings

  /** The connection the constructor opens, chosen by the path's suffix. */
  datatype StoreKind = FileGeodatabase | MobileGeodatabase | DatabaseConnectionFile

  /** A geometry handed to the store; the core never looks inside one. */
  datatype Geometry = Geometry(handle: nat)

  datatype SpatialReference = SpatialReference(wkid: int)

  /** The store's `SpatialRelationship`; `Unspecified` stands for the enum's default value. */
  datatype SpatialRelationship = Unspecified | Intersects | EnvelopeIntersects | IndexIntersects | Touches | Overlaps | Crosses | Within | Contains | Relation

  /** The `(filterGeometry, spatialRelationship)` pair of the descriptor; the geometry may be null. */
  datatype SpatialFilter = SpatialFilter(filterGeometry: Option<Geometry>, spatialRelationship: SpatialRelationship)

  /** The `SpatialQueryFilter` given to the store; `None` marks a property left at the store's default. */
  datatype QueryFilter = QueryFilter(
    subFields: Option<string>,
    whereClause: string,
    postfixClause: Option<string>,
    outputSpatialReference: Option<SpatialReference>,
    spatial: Option<(Geometry, SpatialRelationship)>)

  datatype FeatureClass = FeatureClass(
    store: StoreKind,
    database: string,
    table: string,
    mapping: Mapping,
    outputSpatialReference: Option<SpatialReference>,
    oidFieldName: string,
    whereClauses: seq<string>,
    orderByClauses: seq<string>,
    spatialFilter: SpatialFilter)
  {
    /** `Where(string)`: the clause, parenthesised, appended to the where clauses. */
    function Where(whereClause: string): FeatureClass {
      this.(whereClauses := whereClauses + ["(" + whereClause + ")"])
    }

    /** `Where(Geometry, SpatialRelationship = Intersects)`: the spatial filter replaced. */
    function WhereGeometry(filterGeometry: Option<Geometry>, spatialRelationship: SpatialRelationship := Intersects): FeatureClass {
      this.(spatialFilter := SpatialFilter(filterGeometry, spatialRelationship))
    }

    /** `OrderBy(string, bool = false)`: the field, with ` DESC` when descending, appended to the order-by clauses. */
    function OrderBy(field: string, descending: bool := false): FeatureClass {
      this.(orderByClauses := orderByClauses + [field + (if descending then " DESC" else "")])
    }

    /** The spatial part of a filter: attached only when the geometry is not null. */
    function AttachedSpatial(): Option<(Geometry, SpatialRelationship)> {
      if spatialFilter.filterGeometry.Some? then Some((spatialFilter.filterGeometry.value, spatialFilter.spatialRelationship)) else None
    }

    /** The filter `IterateCursor` searches with. */
    function ReadFilter(): QueryFilter {
      QueryFilter(
        Some(Join(",", Keys(mapping.lowerCaseFieldName))),
        Join(" AND ", whereClauses),
        Some(if |orderByClauses| > 0 then "ORDER BY " + Join(",", orderByClauses) else ""),
        outputSpatialReference,
        AttachedSpatial())
    }

    /** The filter `Delete` removes rows with. */
    function DeleteFilter(): QueryFilter {
      QueryFilter(None, Join(" AND ", whereClauses), None, None, AttachedSpatial())
    }

    /** The descriptor `Insert(T)` re-queries the inserted row with: a copy of this one, filtered on the new object id. */
    function InsertedRowQuery(oid: int): FeatureClass {
      Where(oidFieldName + " = " + IntToString(oid))
    }
  }

  /** A descriptor as the constructor leaves it: no clauses and no spatial filter. */
  predicate IsFresh(d: FeatureClass) {
    d.whereClauses == [] && d.orderByClauses == [] && d.spatialFilter.filterGeometry.None?
  }

  /**
   * Each builder changes only its own part of the descriptor; the list
   * builders append at the end, and clause lists and spatial filter are
   * independent, so builders of different kinds commute.
   */
  lemma BuilderLaws(d: FeatureClass, c: string, f: string, desc: bool, g: Option<Geometry>, rel: SpatialRelationship)
    ensures d.Where(c).whereClauses[..|d.whereClauses|] == d.whereClauses && d.Where(c).whereClauses[|d.whereClauses|] == "(" + c + ")"
    ensures |d.Where(c).whereClauses| == |d.whereClauses| + 1
    ensures d.Where(c).(whereClauses := d.whereClauses) == d
    ensures d.OrderBy(f, desc).orderByClauses == d.orderByClauses + [if desc then f + " DESC" else f]
    ensures d.OrderBy(f, desc).(orderByClauses := d.orderByClauses) == d
    ensures d.WhereGeometry(g, rel).spatialFilter == SpatialFilter(g, rel)
    ensures d.WhereGeometry(g, rel).(spatialFilter := d.spatialFilter) == d
    ensures d.WhereGeometry(g).spatialFilter.spatialRelationship == Intersects
    ensures d.Where(c).OrderBy(f, desc) == d.OrderBy(f, desc).Where(c)
    ensures d.Where(c).WhereGeometry(g, rel) == d.WhereGeometry(g, rel).Where(c)
    ensures d.OrderBy(f, desc).WhereGeometry(g, rel) == d.WhereGeometry(g, rel).OrderBy(f, desc)
  {
    assert f + "" == f;
  }

  /** A later spatial filter replaces an earlier one. */
  lemma LastSpatialFilterWins(d: FeatureClass, g1: Option<Geometry>, r1: SpatialRelationship, g2: Option<Geometry>, r2: SpatialRelationship)
    ensures d.WhereGeometry(g1, r1).WhereGeometry(g2, r2) == d.WhereGeometry(g2, r2)
  {
  }

  /** Adding a where clause extends the composed WHERE text by ` AND (c)`, or makes it `(c)` when it was the first. */
  lemma ReadFilterAfterWhere(d: FeatureClass, c: string)
    ensures d.Where(c).ReadFilter().whereClause ==
      if d.whereClauses == [] then "(" + c + ")" else d.ReadFilter().whereClause + " AND " + "(" + c + ")"
    ensures d.Where(c).ReadFilter().(whereClause := d.ReadFilter().whereClause) == d.ReadFilter()
    ensures d.Where(c).DeleteFilter().whereClause == d.Where(c).ReadFilter().whereClause
  {
    JoinSnoc(" AND ", d.whereClauses, "(" + c + ")");
  }

  /** Adding an order-by clause extends the postfix by `,key`, or makes it `ORDER BY key` when it was the first. */
  lemma ReadFilterAfterOrderBy(d: FeatureClass, f: string, desc: bool)
    ensures
      var key := if desc then f + " DESC" else f;
      d.OrderBy(f, desc).ReadFilter().postfixClause ==
        Some(if d.orderByClauses == [] then "ORDER BY " + key else d.ReadFilter().postfixClause.value + "," + key)
    ensures d.OrderBy(f, desc).ReadFilter().whereClause == d.ReadFilter().whereClause
    ensures d.OrderBy(f, desc).DeleteFilter() == d.DeleteFilter()
  {
    var key := if desc then f + " DESC" else f;
    assert f + "" == f;
    JoinSnoc(",", d.orderByClauses, key);
    if d.orderByClauses != [] {
      var j := Join(",", d.orderByClauses);
      assert "ORDER BY " + (j + "," + key) == "ORDER BY " + j + "," + key;
    }
  }

  /**
   * The read filter: an empty descriptor reads every mapped column unsorted,
   * and the spatial filter is attached exactly when its geometry is not null.
   */
  lemma ReadFilterComposition(d: FeatureClass)
    ensures d.whereClauses == [] ==> d.ReadFilter().whereClause == ""
    ensures d.orderByClauses == [] ==> d.ReadFilter().postfixClause == Some("")
    ensures d.ReadFilter().subFields == Some(Join(",", Keys(d.mapping.lowerCaseFieldName)))
    ensures d.ReadFilter().outputSpatialReference == d.outputSpatialReference
    ensures d.ReadFilter().spatial.Some? <==> d.spatialFilter.filterGeometry.Some?
    ensures d.ReadFilter().spatial.Some? ==> d.ReadFilter().spatial.value == (d.spatialFilter.filterGeometry.value, d.spatialFilter.spatialRelationship)
  {
  }

  /** The delete filter shares the WHERE text and spatial part of the read filter and sets nothing else. */
  lemma DeleteFilterComposition(d: FeatureClass)
    ensures d.DeleteFilter() == QueryFilter(None, d.ReadFilter().whereClause, None, None, d.ReadFilter().spatial)
  {
  }

  /** The re-query after a single insert keeps the receiver's filters and adds the object-id condition. */
  lemma InsertedRowQueryFilter(d: FeatureClass, oid: int)
    ensures
      var c := d.oidFieldName + " = " + IntToString(oid);
      d.InsertedRowQuery(oid).ReadFilter().whereClause ==
        if d.whereClauses == [] then "(" + c + ")" else d.ReadFilter().whereClause + " AND " + "(" + c + ")"
    ensures d.InsertedRowQuery(oid).spatialFilter == d.spatialFilter && d.InsertedRowQuery(oid).orderByClauses == d.orderByClauses
  {
    var c := d.oidFieldName + " = " + IntToString(oid);
    assert d.InsertedRowQuery(oid) == d.Where(c);
    ReadFilterAfterWhere(d, c);
  }

  /** The constructor's suffix dispatch: `.gdb`, then `.geodatabase`, then `.sde`; anything else is refused. */
  function ConnectionKind(path: string): (r: Result<StoreKind, Error>)
    ensures r.Success? <==> EndsWith(path, ".gdb") || EndsWith(path, ".geodatabase") || EndsWith(path, ".sde")
    ensures r.Failure? ==> r.error == UnsupportedFormat(path)
    ensures r == Success(FileGeodatabase) <==> EndsWith(path, ".gdb")
    ensures r == Success(MobileGeodatabase) <==> !EndsWith(path, ".gdb") && EndsWith(path, ".geodatabase")
    ensures r == Success(DatabaseConnectionFile) <==> !EndsWith(path, ".gdb") && !EndsWith(path, ".geodatabase") && EndsWith(path, ".sde")
  {
    if EndsWith(path, ".gdb") then Success(FileGeodatabase)
    else if EndsWith(path, ".geodatabase") then Success(MobileGeodatabase)
    else if EndsWith(path, ".sde") then Success(DatabaseConnectionFile)
    else Failure(UnsupportedFormat(path))
  }

  /** What the constructor produces, step by step, from a resolved database path and the table's schema. */
  function Opened(databasePath: string, table: string, schema: seq<Field>, ps: seq<Property>,
                  rename: Option<map<string, string>>, outputSpatialReference: Option<SpatialReference>): Result<FeatureClass, Error>
  {
    var store :- ConnectionKind(databasePath);
    var fields :- FieldIndex(schema);
    var oid :- SingleOid(Values(fields));
    var mapping :- MappingOf(ps, fields, rename, table);
    Success(FeatureClass(store, databasePath, table, mapping, outputSpatialReference, oid.name, [], [], SpatialFilter(None, Unspecified)))
  }

  /** The `FeatureClass(database, table, propertyNameToFieldName, outputSpatialReference)` constructor, with the database path already resolved. */
  method Open(databasePath: string, table: string, schema: seq<Field>, ps: seq<Property>,
              rename: Option<map<string, string>>, outputSpatialReference: Option<SpatialReference>)
    returns (r: Result<FeatureClass, Error>)
    ensures r == Opened(databasePath, table, schema, ps, rename, outputSpatialReference)
  {
    var store :- ConnectionKind(databasePath);
    var fields :- FieldIndex(schema);
    var oid :- SingleOid(Values(fields));
    var mapping :- Build(ps, fields, rename, table);
    return Success(FeatureClass(store, databasePath, table, mapping, outputSpatialReference, oid.name, [], [], SpatialFilter(None, Unspecified)));
  }

  /**
   * Opening succeeds exactly when the suffix is supported, the schema's column
   * names are distinct ignoring case, exactly one column is the object id and
   * every property finds a column of its own; the descriptor is then fresh,
   * names that object-id column, and carries a valid mapping.
   */
  lemma OpenedSpec(databasePath: string, table: string, schema: seq<Field>, ps: seq<Property>,
                   rename: Option<map<string, string>>, outputSpatialReference: Option<SpatialReference>)
    ensures
      var r := Opened(databasePath, table, schema, ps, rename, outputSpatialReference);
      r.Success? <==>
        && ConnectionKind(databasePath).Success?
        && FieldIndex(schema).Success?
        && ExactlyOneOid(schema)
        && MappingOf(ps, FieldIndex(schema).value, rename, table).Success?
    ensures
      var r := Opened(databasePath, table, schema, ps, rename, outputSpatialReference);
      r.Success? ==>
        && IsFresh(r.value)
        && Valid(r.value.mapping)
        && r.value.mapping == MappingOf(ps, FieldIndex(schema).value, rename, table).value
        && (forall i :: ExactlyOneOidAt(schema, i) ==> r.value.oidFieldName == schema[i].name)
  {
    if FieldIndex(schema).Success? {
      var fields := FieldIndex(schema).value;
      assert Values(fields) == schema;
      if MappingOf(ps, fields, rename, table).Success? {
        MappingOfValid(schema, ps, rename, table);
      }
    }
  }
}
