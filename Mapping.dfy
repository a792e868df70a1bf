/**
 * The field mapping of a `FeatureClass<T>`: which column of the table each
 * property of the record type `T` reads and writes, built once when the
 * table is opened and shared by every descriptor derived from it.
 */
module Mappings {
  import opened Wrappers
  import opened Errors
  import opened Text
  import opened Dictionaries

  /** The store's `FieldType`; only `OID` matters to the core. */
  datatype FieldType = OID | SmallInteger | Integer | BigInteger | Single | Double | String | Date | Geometry | Blob | Raster | GUID | GlobalID | XML

  /** A column of the table's schema. */
  datatype Field = Field(name: string, fieldType: FieldType, isEditable: bool)

  /** A declared property type: a plain type, or `Nullable<U>` of a value type `U`. */
  datatype TypeRef = Plain(name: string) | Nullable(underlying: string)

  /** `Nullable.GetUnderlyingType(t) ?? t`. */
  function Underlying(t: TypeRef): string {
    match t
    case Plain(n) => n
    case Nullable(u) => u
  }

  /** `Type.ToString()`, as the conversion error prints the property type. */
  function TypeDisplay(t: TypeRef): string {
    match t
    case Plain(n) => n
    case Nullable(u) => "System.Nullable`1[" + u + "]"
  }

  /** A public property of the record type, as reflection reports it. */
  datatype Property = Property(name: string, propertyType: TypeRef, hasSetter: bool)

  /** One mapped property and the column it is bound to. */
  datatype Binding = Binding(property: Property, field: Field)

  /** The two lookup views: by lower-cased column name, and by property name. */
  datatype Mapping = Mapping(lowerCaseFieldName: Dict<Binding>, propertyName: Dict<Binding>)

  /** The bindings in the order the row materialiser and the writers visit them (`PropertyName.Values`). */
  function Bindings(m: Mapping): seq<Binding> {
    Values(m.propertyName)
  }

  /** `mapping.PropertyName[name].field`: the column a property is bound to, or `KeyNotFoundException`. */
  function PropertyField(m: Mapping, name: string): (r: Result<Field, Error>)
    ensures r.Failure? <==> name !in Keys(m.propertyName)
    ensures r.Failure? ==> r.error == KeyNotFound(name)
    ensures r.Success? ==> r.value == Get(m.propertyName, name).field
  {
    var b :- Lookup(m.propertyName, name);
    Success(b.field)
  }

  ghost predicate Distinct(s: seq<string>) {
    forall i, j :: 0 <= i < j < |s| ==> s[i] != s[j]
  }

  /** `schema.ToDictionary(x => x.Name.ToLower())`: the schema keyed by lower-cased column name. */
  function FieldIndex(schema: seq<Field>): (r: Result<Dict<Field>, Error>)
    ensures r.Success? <==> forall i, j :: 0 <= i < j < |schema| ==> ToLower(schema[i].name) != ToLower(schema[j].name)
    ensures r.Success? ==> |r.value| == |schema| && UniqueKeys(r.value)
    ensures r.Success? ==> forall i :: 0 <= i < |schema| ==> r.value[i] == (ToLower(schema[i].name), schema[i])
    decreases |schema|
  {
    if schema == [] then Success([])
    else
      var d :- FieldIndex(schema[..|schema| - 1]);
      var f := schema[|schema| - 1];
      Add(d, ToLower(f.name), f)
  }

  /** In a successful field index, every entry's key is its column name lower-cased. */
  lemma FieldIndexKey(schema: seq<Field>, k: string)
    requires FieldIndex(schema).Success?
    requires k in Keys(FieldIndex(schema).value)
    ensures ToLower(Get(FieldIndex(schema).value, k).name) == k
  {
    var i := GetIsEntry(FieldIndex(schema).value, k);
  }

  function OidFields(fs: seq<Field>): (r: seq<Field>)
    ensures forall f :: f in r ==> f in fs && f.fieldType == OID
  {
    if fs == [] then []
    else (if fs[0].fieldType == OID then [fs[0]] else []) + OidFields(fs[1..])
  }

  ghost predicate ExactlyOneOidAt(fs: seq<Field>, i: int) {
    0 <= i < |fs| && fs[i].fieldType == OID && forall j :: 0 <= j < |fs| && j != i ==> fs[j].fieldType != OID
  }

  ghost predicate ExactlyOneOid(fs: seq<Field>) {
    exists i :: ExactlyOneOidAt(fs, i)
  }

  lemma OidFieldsCount(fs: seq<Field>)
    ensures |OidFields(fs)| == 0 <==> forall j :: 0 <= j < |fs| ==> fs[j].fieldType != OID
    ensures |OidFields(fs)| == 1 <==> ExactlyOneOid(fs)
    ensures forall i :: ExactlyOneOidAt(fs, i) ==> OidFields(fs) == [fs[i]]
  {
    OidFieldsNone(fs);
    if |OidFields(fs)| == 1 {
      OidFieldsSingle(fs);
    }
    forall i | ExactlyOneOidAt(fs, i) ensures OidFields(fs) == [fs[i]] {
      OidFieldsAt(fs, i);
    }
    if ExactlyOneOid(fs) {
      var i :| ExactlyOneOidAt(fs, i);
      OidFieldsAt(fs, i);
    }
  }

  /** No object-id column is found exactly when there is none. */
  lemma {:induction false} OidFieldsNone(fs: seq<Field>)
    ensures |OidFields(fs)| == 0 <==> forall j :: 0 <= j < |fs| ==> fs[j].fieldType != OID
  {
    if fs != [] {
      var t := fs[1..];
      OidFieldsNone(t);
      assert forall j :: 1 <= j < |fs| ==> fs[j] == t[j - 1];
    }
  }

  /** The one object-id column at `i` is the only one found. */
  lemma {:induction false} OidFieldsAt(fs: seq<Field>, i: int)
    requires ExactlyOneOidAt(fs, i)
    ensures OidFields(fs) == [fs[i]]
  {
    var t := fs[1..];
    if i == 0 {
      OidFieldsNone(t);
      forall j | 0 <= j < |t| ensures t[j].fieldType != OID {
        assert t[j] == fs[j + 1];
      }
    } else {
      assert ExactlyOneOidAt(t, i - 1) by {
        forall j | 0 <= j < |t| && j != i - 1 ensures t[j].fieldType != OID {
          assert t[j] == fs[j + 1];
        }
      }
      OidFieldsAt(t, i - 1);
      assert t[i - 1] == fs[i];
    }
  }

  /** Finding exactly one object-id column means there is exactly one. */
  lemma {:induction false} OidFieldsSingle(fs: seq<Field>)
    requires |OidFields(fs)| == 1
    ensures ExactlyOneOid(fs)
  {
    var t := fs[1..];
    if fs[0].fieldType == OID {
      OidFieldsNone(t);
      assert ExactlyOneOidAt(fs, 0) by {
        forall j | 0 < j < |fs| ensures fs[j].fieldType != OID {
          assert fs[j] == t[j - 1];
        }
      }
    } else {
      OidFieldsSingle(t);
      var i :| ExactlyOneOidAt(t, i);
      assert ExactlyOneOidAt(fs, i + 1) by {
        forall j | 0 <= j < |fs| && j != i + 1 ensures fs[j].fieldType != OID {
          if j > 0 { assert fs[j] == t[j - 1]; }
        }
      }
    }
  }

  /** `fields.Values.Single(x => x.FieldType == FieldType.OID)`: the one object-id column, or an error if there is none or more than one. */
  function SingleOid(fs: seq<Field>): (r: Result<Field, Error>)
    ensures r.Success? <==> ExactlyOneOid(fs)
    ensures r.Success? ==> forall i :: ExactlyOneOidAt(fs, i) ==> r.value == fs[i]
    ensures r == Failure(NoMatchingElement) <==> forall j :: 0 <= j < |fs| ==> fs[j].fieldType != OID
  {
    OidFieldsCount(fs);
    var oids := OidFields(fs);
    if |oids| == 0 then Failure(NoMatchingElement)
    else if |oids| > 1 then Failure(MoreThanOneMatchingElement)
    else Success(oids[0])
  }

  /** The lower-cased column name a property asks for: its entry in the rename table when it has one, else its own name. */
  function Resolve(p: Property, rename: Option<map<string, string>>): string {
    if rename.Some? && p.name in rename.value then ToLower(rename.value[p.name]) else ToLower(p.name)
  }

  /** One turn of the constructor's loop: look the column up, then `Add` to both views, each `Add` failing on a key already present. */
  function Step(acc: Mapping, p: Property, fields: Dict<Field>, rename: Option<map<string, string>>, table: string): Result<Mapping, Error> {
    var fieldName := Resolve(p, rename);
    if fieldName !in Keys(fields) then Failure(FieldNotFound(fieldName, table))
    else
      var b := Binding(p, Get(fields, fieldName));
      if fieldName in Keys(acc.lowerCaseFieldName) then Failure(DuplicateKey(fieldName))
      else if p.name in Keys(acc.propertyName) then Failure(DuplicateKey(p.name))
      else Success(Mapping(acc.lowerCaseFieldName + [(fieldName, b)], acc.propertyName + [(p.name, b)]))
  }

  function BuildFrom(acc: Mapping, ps: seq<Property>, fields: Dict<Field>, rename: Option<map<string, string>>, table: string): Result<Mapping, Error>
    decreases |ps|
  {
    if ps == [] then Success(acc)
    else
      var next :- Step(acc, ps[0], fields, rename, table);
      BuildFrom(next, ps[1..], fields, rename, table)
  }

  /** The mapping the constructor builds from the properties of `T`, in declaration order. */
  function MappingOf(ps: seq<Property>, fields: Dict<Field>, rename: Option<map<string, string>>, table: string): Result<Mapping, Error> {
    BuildFrom(Mapping([], []), ps, fields, rename, table)
  }

  /** The constructor's loop over `typeof(T).GetProperties()`, filling both views of the mapping. */
  method Build(ps: seq<Property>, fields: Dict<Field>, rename: Option<map<string, string>>, table: string)
    returns (r: Result<Mapping, Error>)
    ensures r == MappingOf(ps, fields, rename, table)
  {
    var lower: Dict<Binding> := [];
    var byName: Dict<Binding> := [];
    var i := 0;
    while i < |ps|
      invariant 0 <= i <= |ps|
      invariant BuildFrom(Mapping(lower, byName), ps[i..], fields, rename, table) == MappingOf(ps, fields, rename, table)
    {
      var p := ps[i];
      BuildTurn(Mapping(lower, byName), ps, i, fields, rename, table);
      var fieldName := Resolve(p, rename);
      if fieldName !in Keys(fields) {
        return Failure(FieldNotFound(fieldName, table));
      }
      var b := Binding(p, Get(fields, fieldName));
      lower :- Add(lower, fieldName, b);
      byName :- Add(byName, p.name, b);
      i := i + 1;
    }
    return Success(Mapping(lower, byName));
  }

  /** The loop from turn `i` is turn `i` followed by the loop from turn `i + 1`. */
  lemma BuildTurn(acc: Mapping, ps: seq<Property>, i: nat, fields: Dict<Field>, rename: Option<map<string, string>>, table: string)
    requires i < |ps|
    ensures BuildFrom(acc, ps[i..], fields, rename, table) ==
      var fieldName := Resolve(ps[i], rename);
      if fieldName !in Keys(fields) then Failure(FieldNotFound(fieldName, table))
      else if fieldName in Keys(acc.lowerCaseFieldName) then Failure(DuplicateKey(fieldName))
      else if ps[i].name in Keys(acc.propertyName) then Failure(DuplicateKey(ps[i].name))
      else
        var b := Binding(ps[i], Get(fields, fieldName));
        BuildFrom(Mapping(acc.lowerCaseFieldName + [(fieldName, b)], acc.propertyName + [(ps[i].name, b)]), ps[i + 1..], fields, rename, table)
  {
    assert ps[i..][0] == ps[i] && ps[i..][1..] == ps[i + 1..];
  }

  function Resolved(ps: seq<Property>, rename: Option<map<string, string>>): (r: seq<string>)
    ensures |r| == |ps| && forall i :: 0 <= i < |ps| ==> r[i] == Resolve(ps[i], rename)
  {
    seq(|ps|, i requires 0 <= i < |ps| => Resolve(ps[i], rename))
  }

  function Names(ps: seq<Property>): (r: seq<string>)
    ensures |r| == |ps| && forall i :: 0 <= i < |ps| ==> r[i] == ps[i].name
  {
    seq(|ps|, i requires 0 <= i < |ps| => ps[i].name)
  }

  ghost predicate Resolvable(ps: seq<Property>, fields: Dict<Field>, rename: Option<map<string, string>>) {
    forall i :: 0 <= i < |ps| ==> Resolve(ps[i], rename) in Keys(fields)
  }

  /** The binding the constructor makes for property `p`. */
  function BindingOf(p: Property, fields: Dict<Field>, rename: Option<map<string, string>>): Binding
    requires Resolve(p, rename) in Keys(fields)
  {
    Binding(p, Get(fields, Resolve(p, rename)))
  }

  /**
   * A list with `x` inserted after `k` is duplicate-free exactly when `x`
   * occurs neither before nor after it and the list without it is
   * duplicate-free.
   */
  lemma DistinctCons(k: seq<string>, x: string, rest: seq<string>)
    ensures Distinct(k + [x] + rest) <==> x !in k && x !in rest && Distinct(k + rest)
  {
    if Distinct(k + [x] + rest) {
      DistinctWithout(k, x, rest);
    }
    if x !in k && x !in rest && Distinct(k + rest) {
      DistinctWith(k, x, rest);
    }
  }

  lemma DistinctWithout(k: seq<string>, x: string, rest: seq<string>)
    requires Distinct(k + [x] + rest)
    ensures x !in k && x !in rest && Distinct(k + rest)
  {
    var s := k + [x] + rest;
    var t := k + rest;
    forall i | 0 <= i < |k|
      ensures k[i] != x
    {
      assert s[i] == k[i] && s[|k|] == x;
    }
    forall i | 0 <= i < |rest|
      ensures rest[i] != x
    {
      assert s[|k| + 1 + i] == rest[i] && s[|k|] == x;
    }
    forall i, j | 0 <= i < j < |t|
      ensures t[i] != t[j]
    {
      assert t[i] == s[if i < |k| then i else i + 1];
      assert t[j] == s[if j < |k| then j else j + 1];
    }
  }

  lemma DistinctWith(k: seq<string>, x: string, rest: seq<string>)
    requires x !in k && x !in rest && Distinct(k + rest)
    ensures Distinct(k + [x] + rest)
  {
    var s := k + [x] + rest;
    var t := k + rest;
    forall i, j | 0 <= i < j < |s|
      ensures s[i] != s[j]
    {
      if i == |k| {
        assert s[j] == rest[j - |k| - 1];
      } else if j == |k| {
        assert s[i] == k[i];
      } else {
        assert s[i] == t[if i < |k| then i else i - 1];
        assert s[j] == t[if j < |k| then j else j - 1];
      }
    }
  }

  lemma StepSpec(acc: Mapping, p: Property, fields: Dict<Field>, rename: Option<map<string, string>>, table: string)
    ensures Step(acc, p, fields, rename, table).Success? <==>
      Resolve(p, rename) in Keys(fields) && Resolve(p, rename) !in Keys(acc.lowerCaseFieldName) && p.name !in Keys(acc.propertyName)
    ensures Step(acc, p, fields, rename, table).Success? ==>
      Step(acc, p, fields, rename, table).value ==
        Mapping(acc.lowerCaseFieldName + [(Resolve(p, rename), BindingOf(p, fields, rename))],
                acc.propertyName + [(p.name, BindingOf(p, fields, rename))])
  {
  }

  /** One unfolding of the loop: the first step, then the rest from its result. */
  lemma BuildFromCons(acc: Mapping, ps: seq<Property>, fields: Dict<Field>, rename: Option<map<string, string>>, table: string)
    requires ps != []
    ensures Step(acc, ps[0], fields, rename, table).Failure? ==>
      BuildFrom(acc, ps, fields, rename, table) == Failure(Step(acc, ps[0], fields, rename, table).error)
    ensures Step(acc, ps[0], fields, rename, table).Success? ==>
      BuildFrom(acc, ps, fields, rename, table) == BuildFrom(Step(acc, ps[0], fields, rename, table).value, ps[1..], fields, rename, table)
  {
  }

  /** The success condition after one step, given the condition for the rest. */
  lemma SucceedsStep(acc: Mapping, ps: seq<Property>, fields: Dict<Field>, rename: Option<map<string, string>>, table: string)
    requires ps != []
    requires Distinct(Keys(acc.lowerCaseFieldName)) && Distinct(Keys(acc.propertyName))
    requires Step(acc, ps[0], fields, rename, table).Success? ==>
      (BuildFrom(Step(acc, ps[0], fields, rename, table).value, ps[1..], fields, rename, table).Success? <==>
        && Resolvable(ps[1..], fields, rename)
        && Distinct(Keys(acc.lowerCaseFieldName) + [Resolve(ps[0], rename)] + Resolved(ps[1..], rename))
        && Distinct(Keys(acc.propertyName) + [ps[0].name] + Names(ps[1..])))
    ensures BuildFrom(acc, ps, fields, rename, table).Success? <==>
      && Resolvable(ps, fields, rename)
      && Distinct(Keys(acc.lowerCaseFieldName) + Resolved(ps, rename))
      && Distinct(Keys(acc.propertyName) + Names(ps))
  {
    var lk, pk := Keys(acc.lowerCaseFieldName), Keys(acc.propertyName);
    var p, t := ps[0], ps[1..];
    assert lk + Resolved(ps, rename) == lk + [Resolve(p, rename)] + Resolved(t, rename);
    assert pk + Names(ps) == pk + [p.name] + Names(t);
    DistinctCons(lk, Resolve(p, rename), Resolved(t, rename));
    DistinctCons(pk, p.name, Names(t));
    ResolvableCons(ps, fields, rename);
    StepSpec(acc, p, fields, rename, table);
    BuildFromCons(acc, ps, fields, rename, table);
  }

  lemma {:induction false} BuildFromSucceeds(acc: Mapping, ps: seq<Property>, fields: Dict<Field>, rename: Option<map<string, string>>, table: string)
    requires Distinct(Keys(acc.lowerCaseFieldName)) && Distinct(Keys(acc.propertyName))
    ensures BuildFrom(acc, ps, fields, rename, table).Success? <==>
      && Resolvable(ps, fields, rename)
      && Distinct(Keys(acc.lowerCaseFieldName) + Resolved(ps, rename))
      && Distinct(Keys(acc.propertyName) + Names(ps))
    decreases |ps|
  {
    var lk, pk := Keys(acc.lowerCaseFieldName), Keys(acc.propertyName);
    if ps == [] {
      assert lk + Resolved(ps, rename) == lk;
      assert pk + Names(ps) == pk;
    } else {
      var p, t := ps[0], ps[1..];
      StepSpec(acc, p, fields, rename, table);
      var s := Step(acc, p, fields, rename, table);
      if s.Success? {
        var next := s.value;
        assert Keys(next.lowerCaseFieldName) == lk + [Resolve(p, rename)];
        assert Keys(next.propertyName) == pk + [p.name];
        DistinctSnoc(lk, Resolve(p, rename));
        DistinctSnoc(pk, p.name);
        BuildFromSucceeds(next, t, fields, rename, table);
      }
      SucceedsStep(acc, ps, fields, rename, table);
    }
  }

  /** The entries the loop adds to the column-name view, one per property. */
  ghost function LowerEntries(ps: seq<Property>, fields: Dict<Field>, rename: Option<map<string, string>>): (r: seq<(string, Binding)>)
    requires Resolvable(ps, fields, rename)
    ensures |r| == |ps| && forall i :: 0 <= i < |ps| ==> r[i] == (Resolve(ps[i], rename), BindingOf(ps[i], fields, rename))
  {
    seq(|ps|, i requires 0 <= i < |ps| => (Resolve(ps[i], rename), BindingOf(ps[i], fields, rename)))
  }

  /** The entries the loop adds to the property-name view, one per property. */
  ghost function NameEntries(ps: seq<Property>, fields: Dict<Field>, rename: Option<map<string, string>>): (r: seq<(string, Binding)>)
    requires Resolvable(ps, fields, rename)
    ensures |r| == |ps| && forall i :: 0 <= i < |ps| ==> r[i] == (ps[i].name, BindingOf(ps[i], fields, rename))
  {
    seq(|ps|, i requires 0 <= i < |ps| => (ps[i].name, BindingOf(ps[i], fields, rename)))
  }

  lemma EntriesCons(ps: seq<Property>, fields: Dict<Field>, rename: Option<map<string, string>>)
    requires ps != [] && Resolvable(ps, fields, rename) && Resolvable(ps[1..], fields, rename)
    ensures LowerEntries(ps, fields, rename) == [(Resolve(ps[0], rename), BindingOf(ps[0], fields, rename))] + LowerEntries(ps[1..], fields, rename)
    ensures NameEntries(ps, fields, rename) == [(ps[0].name, BindingOf(ps[0], fields, rename))] + NameEntries(ps[1..], fields, rename)
  {
    LowerEntriesCons(ps, fields, rename);
    NameEntriesCons(ps, fields, rename);
  }

  lemma LowerEntriesCons(ps: seq<Property>, fields: Dict<Field>, rename: Option<map<string, string>>)
    requires ps != [] && Resolvable(ps, fields, rename) && Resolvable(ps[1..], fields, rename)
    ensures LowerEntries(ps, fields, rename) == [(Resolve(ps[0], rename), BindingOf(ps[0], fields, rename))] + LowerEntries(ps[1..], fields, rename)
  {
    var t := ps[1..];
    var l, h, u := LowerEntries(ps, fields, rename), (Resolve(ps[0], rename), BindingOf(ps[0], fields, rename)), LowerEntries(t, fields, rename);
    forall i | 0 <= i < |l| ensures l[i] == ([h] + u)[i] {
      if i > 0 {
        assert t[i - 1] == ps[i];
        assert u[i - 1] == (Resolve(t[i - 1], rename), BindingOf(t[i - 1], fields, rename));
      }
    }
    assert l == [h] + u;
  }

  lemma NameEntriesCons(ps: seq<Property>, fields: Dict<Field>, rename: Option<map<string, string>>)
    requires ps != [] && Resolvable(ps, fields, rename) && Resolvable(ps[1..], fields, rename)
    ensures NameEntries(ps, fields, rename) == [(ps[0].name, BindingOf(ps[0], fields, rename))] + NameEntries(ps[1..], fields, rename)
  {
    var t := ps[1..];
    var n, h, u := NameEntries(ps, fields, rename), (ps[0].name, BindingOf(ps[0], fields, rename)), NameEntries(t, fields, rename);
    forall i | 0 <= i < |n| ensures n[i] == ([h] + u)[i] {
      if i > 0 {
        assert t[i - 1] == ps[i];
        assert u[i - 1] == (t[i - 1].name, BindingOf(t[i - 1], fields, rename));
      }
    }
    assert n == [h] + u;
  }

  /** The entries after one step, given the entries for the rest. */
  lemma EntriesStep(acc: Mapping, ps: seq<Property>, fields: Dict<Field>, rename: Option<map<string, string>>, table: string)
    requires ps != [] && Step(acc, ps[0], fields, rename, table).Success?
    requires Resolvable(ps[1..], fields, rename)
    requires
      var next := Step(acc, ps[0], fields, rename, table).value;
      && BuildFrom(next, ps[1..], fields, rename, table).Success?
      && BuildFrom(next, ps[1..], fields, rename, table).value.lowerCaseFieldName == next.lowerCaseFieldName + LowerEntries(ps[1..], fields, rename)
      && BuildFrom(next, ps[1..], fields, rename, table).value.propertyName == next.propertyName + NameEntries(ps[1..], fields, rename)
    ensures Resolvable(ps, fields, rename)
    ensures BuildFrom(acc, ps, fields, rename, table).Success?
    ensures BuildFrom(acc, ps, fields, rename, table).value.lowerCaseFieldName == acc.lowerCaseFieldName + LowerEntries(ps, fields, rename)
    ensures BuildFrom(acc, ps, fields, rename, table).value.propertyName == acc.propertyName + NameEntries(ps, fields, rename)
  {
    var p, t := ps[0], ps[1..];
    StepSpec(acc, p, fields, rename, table);
    BuildFromCons(acc, ps, fields, rename, table);
    ResolvableCons(ps, fields, rename);
    EntriesCons(ps, fields, rename);
    var b := BindingOf(p, fields, rename);
    ConsRegroup(acc.lowerCaseFieldName, (Resolve(p, rename), b), LowerEntries(t, fields, rename), LowerEntries(ps, fields, rename));
    ConsRegroup(acc.propertyName, (p.name, b), NameEntries(t, fields, rename), NameEntries(ps, fields, rename));
  }

  lemma ConsRegroup<T>(a: seq<T>, x: T, rest: seq<T>, whole: seq<T>)
    requires whole == [x] + rest
    ensures a + [x] + rest == a + whole
  {
  }

  lemma {:induction false} BuildFromEntries(acc: Mapping, ps: seq<Property>, fields: Dict<Field>, rename: Option<map<string, string>>, table: string)
    requires BuildFrom(acc, ps, fields, rename, table).Success?
    ensures Resolvable(ps, fields, rename)
    ensures BuildFrom(acc, ps, fields, rename, table).value.lowerCaseFieldName == acc.lowerCaseFieldName + LowerEntries(ps, fields, rename)
    ensures BuildFrom(acc, ps, fields, rename, table).value.propertyName == acc.propertyName + NameEntries(ps, fields, rename)
    decreases |ps|
  {
    if ps == [] {
      assert acc.lowerCaseFieldName + LowerEntries(ps, fields, rename) == acc.lowerCaseFieldName;
      assert acc.propertyName + NameEntries(ps, fields, rename) == acc.propertyName;
    } else {
      BuildFromCons(acc, ps, fields, rename, table);
      var next := Step(acc, ps[0], fields, rename, table).value;
      BuildFromEntries(next, ps[1..], fields, rename, table);
      EntriesStep(acc, ps, fields, rename, table);
    }
  }

  lemma ResolvableCons(ps: seq<Property>, fields: Dict<Field>, rename: Option<map<string, string>>)
    requires ps != []
    ensures Resolvable(ps, fields, rename) <==> Resolve(ps[0], rename) in Keys(fields) && Resolvable(ps[1..], fields, rename)
  {
    if Resolve(ps[0], rename) in Keys(fields) && Resolvable(ps[1..], fields, rename) {
      forall i | 0 <= i < |ps| ensures Resolve(ps[i], rename) in Keys(fields) {
        if i > 0 { assert ps[i] == ps[1..][i - 1]; }
      }
    }
    if Resolvable(ps, fields, rename) {
      forall i | 0 <= i < |ps[1..]| ensures Resolve(ps[1..][i], rename) in Keys(fields) {
        assert ps[1..][i] == ps[i + 1];
      }
    }
  }

  lemma DistinctSnoc(k: seq<string>, x: string)
    requires Distinct(k) && x !in k
    ensures Distinct(k + [x])
  {
  }

  /**
   * The constructor succeeds exactly when every property finds its column and
   * no two properties claim the same column or the same name; each property
   * then contributes exactly one entry to each view, in declaration order.
   */
  lemma MappingOfSpec(ps: seq<Property>, fields: Dict<Field>, rename: Option<map<string, string>>, table: string)
    ensures MappingOf(ps, fields, rename, table).Success? <==>
      Resolvable(ps, fields, rename) && Distinct(Resolved(ps, rename)) && Distinct(Names(ps))
    ensures MappingOf(ps, fields, rename, table).Success? ==>
      var m := MappingOf(ps, fields, rename, table).value;
      && |m.lowerCaseFieldName| == |ps| && |m.propertyName| == |ps|
      && forall i :: 0 <= i < |ps| ==>
           && m.lowerCaseFieldName[i] == (Resolve(ps[i], rename), BindingOf(ps[i], fields, rename))
           && m.propertyName[i] == (ps[i].name, BindingOf(ps[i], fields, rename))
  {
    var acc := Mapping([], []);
    assert Keys(acc.lowerCaseFieldName) == [] && Keys(acc.propertyName) == [];
    BuildFromSucceeds(acc, ps, fields, rename, table);
    assert [] + Resolved(ps, rename) == Resolved(ps, rename);
    assert [] + Names(ps) == Names(ps);
    if MappingOf(ps, fields, rename, table).Success? {
      BuildFromEntries(acc, ps, fields, rename, table);
      assert [] + LowerEntries(ps, fields, rename) == LowerEntries(ps, fields, rename);
      assert [] + NameEntries(ps, fields, rename) == NameEntries(ps, fields, rename);
    }
  }

  /** The first property whose column is missing names that column and the table in the error. */
  lemma MissingFieldFails(ps: seq<Property>, fields: Dict<Field>, rename: Option<map<string, string>>, table: string, k: nat)
    requires k < |ps|
    requires Resolve(ps[k], rename) !in Keys(fields)
    requires Resolvable(ps[..k], fields, rename) && Distinct(Resolved(ps[..k], rename)) && Distinct(Names(ps[..k]))
    ensures MappingOf(ps, fields, rename, table) == Failure(FieldNotFound(Resolve(ps[k], rename), table))
  {
    MappingOfSpec(ps[..k], fields, rename, table);
    BuildFromPrefix(Mapping([], []), ps, k, fields, rename, table);
    var m := MappingOf(ps[..k], fields, rename, table).value;
    assert ps[k..][0] == ps[k];
  }

  /** Running the loop over a prefix that succeeds, then over the rest, is running it over the whole. */
  lemma {:induction false} BuildFromPrefix(acc: Mapping, ps: seq<Property>, k: nat, fields: Dict<Field>, rename: Option<map<string, string>>, table: string)
    requires k <= |ps|
    requires BuildFrom(acc, ps[..k], fields, rename, table).Success?
    ensures BuildFrom(acc, ps, fields, rename, table) == BuildFrom(BuildFrom(acc, ps[..k], fields, rename, table).value, ps[k..], fields, rename, table)
    decreases k
  {
    if k > 0 {
      assert ps[..k][0] == ps[0] && ps[..k][1..] == ps[1..][..k - 1];
      var next := Step(acc, ps[0], fields, rename, table).value;
      BuildFromPrefix(next, ps[1..], k - 1, fields, rename, table);
      assert ps[1..][k - 1..] == ps[k..];
    } else {
      assert ps[..0] == [] && ps[0..] == ps;
    }
  }

  /** What every mapping built by the constructor satisfies: the two views list the same bindings in the same order under their own keys. */
  ghost predicate Valid(m: Mapping) {
    && |m.lowerCaseFieldName| == |m.propertyName|
    && UniqueKeys(m.lowerCaseFieldName)
    && UniqueKeys(m.propertyName)
    && forall i :: 0 <= i < |m.propertyName| ==>
         && m.lowerCaseFieldName[i].1 == m.propertyName[i].1
         && m.propertyName[i].0 == m.propertyName[i].1.property.name
         && m.lowerCaseFieldName[i].0 == ToLower(m.propertyName[i].1.field.name)
  }

  /** A mapping built over a field index is valid. */
  lemma MappingOfValid(schema: seq<Field>, ps: seq<Property>, rename: Option<map<string, string>>, table: string)
    requires FieldIndex(schema).Success?
    requires MappingOf(ps, FieldIndex(schema).value, rename, table).Success?
    ensures Valid(MappingOf(ps, FieldIndex(schema).value, rename, table).value)
  {
    var fields := FieldIndex(schema).value;
    MappingOfSpec(ps, fields, rename, table);
    var m := MappingOf(ps, fields, rename, table).value;
    forall i | 0 <= i < |ps| ensures m.lowerCaseFieldName[i].0 == ToLower(m.propertyName[i].1.field.name) {
      FieldIndexKey(schema, Resolve(ps[i], rename));
    }
    assert UniqueKeys(m.lowerCaseFieldName) by {
      forall i, j | 0 <= i < j < |m.lowerCaseFieldName| ensures m.lowerCaseFieldName[i].0 != m.lowerCaseFieldName[j].0 {
        assert Resolved(ps, rename)[i] != Resolved(ps, rename)[j];
      }
    }
    assert UniqueKeys(m.propertyName) by {
      forall i, j | 0 <= i < j < |m.propertyName| ensures m.propertyName[i].0 != m.propertyName[j].0 {
        assert Names(ps)[i] != Names(ps)[j];
      }
    }
  }

  /** In a valid mapping no two bindings share a property name or a column. */
  lemma ValidBindingsDistinct(m: Mapping)
    requires Valid(m)
    ensures forall i, j :: 0 <= i < j < |Bindings(m)| ==>
      Bindings(m)[i].property.name != Bindings(m)[j].property.name && Bindings(m)[i].field.name != Bindings(m)[j].field.name
  {
    forall i, j | 0 <= i < j < |Bindings(m)|
      ensures Bindings(m)[i].property.name != Bindings(m)[j].property.name && Bindings(m)[i].field.name != Bindings(m)[j].field.name
    {
      assert m.lowerCaseFieldName[i].0 != m.lowerCaseFieldName[j].0;
    }
  }
}
