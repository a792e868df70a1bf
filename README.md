# Iceworm core in Dafny

Iceworm is a thin object-mapping layer over the ArcGIS Pro geodatabase API.
A `FeatureClass<T>` opens a table in a file geodatabase, a mobile geodatabase
or an enterprise database connection file. It binds each public property of
the record type `T` to a column of that table. It then lets callers query,
update, insert and delete rows as `T` objects.

The queries are built as immutable descriptors:
- `Where(string)`, `Where(geometry, relationship)` and `OrderBy(string, bool)`
  each return a new descriptor that holds one more clause.
- The extension methods `Where(x => ...)` and `OrderBy(x => x.P)` compile a
  typed C# expression tree into SQL WHERE text, or into a sort column. They
  do this through the property-to-field mapping.

This project models that core:

| file | models |
|---|---|
| `Wrappers.dfy`, `Errors.dfy` | `Option`/`Result`, and one error constructor per exception the core can throw |
| `Text.dfy` | ordinal `EndsWith`; ASCII `ToLower`; `string.Join`; integer and zero-padded date-part formatting |
| `Dictionaries.dfy` | an insertion-ordered `Dictionary<string, V>`: `Add` throws on a duplicate key, and the indexer throws on a missing one |
| `Mapping.dfy` | fields, properties, bindings and the two-view `Mapping` class; the constructor's column index, its single-OID lookup, and its mapping loop (`Build`) |
| `FilterVisitor.dfy` | the expression-tree compiler (`Compile`) and the sort-key extractor |
| `Like.dfy` | a reference semantics for SQL `LIKE`, used to show what the `StartsWith`/`EndsWith`/`Contains` patterns select |
| `Features.dfy` | the descriptor, its builders, the read and delete filters, the suffix dispatch, and the constructor (`Open`) |
| `FilterExt.dfy` | the expression-based `Where`/`OrderBy` extensions |
| `Rows.dfy` | materialisation, write-back, the `Query`/`Update` passes, `Insert(items)` through one reused row buffer, and `Insert(item)` |

Modelling conventions:
- Store rows and records are maps from a name to a possibly-null value.
- `Convert.ChangeType`, `GetType()` and `typeof(T).Name` are parameters of `Rows.Runtime`.
- The store's answers are inputs:
  - the rows a filter selects;
  - the schema of the table;
  - the properties of `T`, in declaration order;
  - the object ids the insert cursor allocates.
- The mapping's two dictionaries are filled by the constructor's loop and never change afterwards. They are therefore a value (`Mappings.Mapping`), built by the imperative `Mappings.Build`.
- A store row and the insert row buffer are changed in place. They are instances of the class `Rows.Row`.

Points where the model fixes a choice the code leaves open, or follows the code where a reader might expect otherwise:
- The rename table is the caller's `Dictionary` (Iceworm/FeatureClass.cs:23), whose comparer the caller chooses. The model fixes the ordinal comparer: exact property names.
- A captured variable holding `null` is not rendered as `IS NULL`. It falls through to the mapping lookup, so it fails unless a property of the same name exists (`FilterVisitor.CapturedNullFallsThrough`).
- A get-only property is not written through its backing field. The failing `SetValue` is reported as the same conversion error (`Rows.Converts`).
- `Insert(item)` re-queries the new row through the receiver's own WHERE clauses and spatial filter (Iceworm/FeatureClass.cs:212-214). An item that fails them is inserted and then reported as no matching element (`Rows.InsertOne`, `Rows.SingleRecord`, `Features.InsertedRowQueryFilter`).
- `%`, `_` and `'` inside a string literal are not escaped, neither in a comparison nor in a `StartsWith`/`EndsWith`/`Contains` pattern. A literal that holds them changes the SQL text (`FilterVisitor.ConstantRendering`, `FilterVisitor.LiteralPatterns`); `FilterVisitor.PatternCallMeaning` speaks only of literals without them.

## Model

| member | source | states |
|---|---|---|
| Dictionaries.Keys | Iceworm/FeatureClass.cs:125 | the keys in insertion order |
| Dictionaries.Values | Iceworm/FeatureClass.cs:59 | the values in insertion order |
| Dictionaries.Lookup | Iceworm/FeatureClass.cs:85 | the indexer fails with a missing-key error exactly when the key is absent, and otherwise returns its entry |
| Dictionaries.Get | Iceworm/FeatureClass.cs:69 | the indexer `d[k]` on a present key: the value of the first entry with that key; `Dictionaries.Lookup` and `Dictionaries.GetAt` state what it returns |
| Dictionaries.Add | Iceworm/FeatureClass.cs:69-70 | `Add` fails with a duplicate-key error exactly when the key is present; otherwise it appends the pair and keeps keys unique |
| Dictionaries.GetAt | Iceworm/FeatureClass.cs:69-70 | with unique keys, looking up the i-th key yields the i-th value |
| Dictionaries.GetIsEntry | Iceworm/FeatureClass.cs:85 | a present key has an entry whose value is the looked-up one |
| Text.EndsWith | Iceworm/FeatureClass.cs:41-47 | the suffix test of the constructor's format dispatch, read ordinally; `Features.ConnectionKind` states the dispatch built on it |
| Text.ToLower | Iceworm/FeatureClass.cs:56 | lower-casing keeps the length |
| Text.Join | Iceworm/FeatureClass.cs:125-127 | `string.Join(sep, xs)`: the elements with the separator between neighbours; `Text.JoinSnoc` states its law for one more element |
| Text.JoinSnoc | Iceworm/FeatureClass.cs:126-127 | joining one more element appends the separator and the element, or gives the element alone when it is the first |
| Text.NatToString | Iceworm/FilterExt.cs:40 | the decimal text of a number is non-empty and made of digits |
| Text.NatToStringValue | Iceworm/FilterExt.cs:40 | the decimal text of a number reads back as that number, with no leading zero unless the number is 0 |
| Text.NatToStringLength | Iceworm/FilterExt.cs:38 | a number below 10^w has at most w digits |
| Text.IntToString | Iceworm/FilterExt.cs:40 | `int.ToString()`: a minus sign before the magnitude's digits when negative; `Text.IntToStringValue` states that it reads back |
| Text.IntToStringValue | Iceworm/FilterExt.cs:40 | an integer's text reads back as the integer: its digits when non-negative, and a minus sign followed by the digits of its magnitude when negative |
| Text.Zeros | Iceworm/FilterExt.cs:38 | a run of n zeros has length n and holds only `0` |
| Text.ZerosValue | Iceworm/FilterExt.cs:38 | a run of zeros denotes 0 |
| Text.LeadingZerosValue | Iceworm/FilterExt.cs:38 | leading zeros do not change the number a digit string denotes |
| Text.Pad | Iceworm/FilterExt.cs:38 | zero-padding yields the requested width or the number's own length, whichever is larger, with only zeros before the number's digits |
| Text.PadValue | Iceworm/FilterExt.cs:38 | zero-padded text reads back as the number, and is exactly the requested width when the number fits in it |
| Mappings.PropertyField | Iceworm/FilterExt.cs:85 | `mapping.PropertyName[name].field` fails with a missing-key error exactly when no property has that name |
| Mappings.FieldIndex | Iceworm/FeatureClass.cs:56 | `ToDictionary(x => x.Name.ToLower())` succeeds exactly when the lower-cased column names are pairwise distinct; it then lists every column under its lower-cased name, in schema order |
| Mappings.FieldIndexKey | Iceworm/FeatureClass.cs:56 | the key of an indexed column is its lower-cased name |
| Mappings.OidFields | Iceworm/FeatureClass.cs:59 | the filter keeps only OID columns of the schema |
| Mappings.OidFieldsCount | Iceworm/FeatureClass.cs:59 | there are no OID columns exactly when none has type OID, and exactly one exactly when a single column has it |
| Mappings.SingleOid | Iceworm/FeatureClass.cs:59 | `Single(OID)` succeeds exactly when exactly one column is the object id, and returns that column; it reports no matching element exactly when there is none, and more than one otherwise |
| Mappings.Resolve | Iceworm/FeatureClass.cs:63-64 | the column a property asks for: its rename-table entry when it has one, else its own name, lower-cased; `Mappings.Resolved` lists it per property |
| Mappings.Step | Iceworm/FeatureClass.cs:63-70 | one turn of the constructor's loop: the column lookup, then `Add` to the column-keyed view, then to the property-keyed view; `Mappings.StepSpec` states its outcomes |
| Mappings.BuildFrom | Iceworm/FeatureClass.cs:61-71 | the constructor's loop over the remaining properties from a partial mapping, stopping at the first error; `Mappings.BuildFromSucceeds`, `Mappings.BuildFromEntries` and `Mappings.BuildFromPrefix` state its behaviour |
| Mappings.MappingOf | Iceworm/FeatureClass.cs:61-71 | the loop from the empty mapping over the properties in declaration order; `Mappings.MappingOfSpec` and `Mappings.MappingOfValid` state its result, and `Mappings.Build` computes it |
| Mappings.Build | Iceworm/FeatureClass.cs:61-71 | the constructor's loop computes `MappingOf`; a missing column stops it with an error naming the column and the table |
| Mappings.Resolved | Iceworm/FeatureClass.cs:63-64 | the column name each property asks for, in property order |
| Mappings.Names | Iceworm/FeatureClass.cs:70 | the property names, in declaration order |
| Mappings.DistinctCons | Iceworm/FeatureClass.cs:69-70 | a list with x inserted is duplicate-free exactly when x occurs nowhere else in it and the list without x is duplicate-free |
| Mappings.StepSpec | Iceworm/FeatureClass.cs:63-70 | one loop turn succeeds exactly when the asked-for column exists and neither dictionary already holds the column or the property; it then appends one binding to each |
| Mappings.BuildFromSucceeds | Iceworm/FeatureClass.cs:61-71 | from a partial mapping, the loop succeeds exactly when every remaining column exists and no key is claimed twice |
| Mappings.BuildFromEntries | Iceworm/FeatureClass.cs:61-71 | each remaining property appends one entry to each view, in order |
| Mappings.ResolvableCons | Iceworm/FeatureClass.cs:66 | every column exists exactly when the first does and every later one does |
| Mappings.DistinctSnoc | Iceworm/FeatureClass.cs:69-70 | appending a new key keeps a key list duplicate-free |
| Mappings.MappingOfSpec | Iceworm/FeatureClass.cs:61-71 | the mapping is built exactly when every property's column (renamed, lower-cased) exists and no two properties claim the same column or name; each property then adds exactly one entry to both views, in declaration order |
| Mappings.MissingFieldFails | Iceworm/FeatureClass.cs:66-67 | the first property whose column is missing makes the build fail with that column's name and the table |
| Mappings.BuildFromPrefix | Iceworm/FeatureClass.cs:61-71 | the loop over a list equals the loop over its remainder, started from the mapping the prefix produced |
| Mappings.MappingOfValid | Iceworm/FeatureClass.cs:56-71 | a built mapping lists the same bindings in both views, in the same order, under unique keys: the property name, and the lower-cased column name |
| Mappings.ValidBindingsDistinct | Iceworm/FeatureClass.cs:252-256 | in a built mapping, no two bindings share a property or a column |
| FilterVisitor.DateTimeText | Iceworm/FilterExt.cs:38 | the `yyyy-MM-dd HH:mm:ss` text of a date's components, each zero-padded; `FilterVisitor.DateTimeFields` states its layout and that every field reads back |
| FilterVisitor.GetValue | Iceworm/FilterExt.cs:35-41 | only the null constant renders as null |
| FilterVisitor.IntLiteralReadsBack | Iceworm/FilterExt.cs:40 | an integer constant's text reads back as the integer, after a minus sign when negative |
| FilterVisitor.StringLiteralReadsBack | Iceworm/FilterExt.cs:37 | a string constant's text is the string, unchanged, between two single quotes |
| FilterVisitor.TimestampLiteralReadsBack | Iceworm/FilterExt.cs:38 | a date constant's text is its `yyyy-MM-dd HH:mm:ss` text between `TIMESTAMP '` and a closing quote |
| FilterVisitor.DateTimeFields | Iceworm/FilterExt.cs:38 | the `yyyy-MM-dd HH:mm:ss` text of an in-range date is 19 characters, with the separators in place, and each field reads back as its component |
| FilterVisitor.Show | Iceworm/FilterExt.cs:49-55 | a possibly-null operand as interpolated: null contributes the empty text; `FilterVisitor.NullComparison` states the cases where a null operand matters |
| FilterVisitor.IsFlipped | Iceworm/FilterExt.cs:45 | a comparison is flipped exactly when its left operand is a constant or a captured field; `FilterVisitor.RelationalRendering` states what flipping does |
| FilterVisitor.RenderBinary | Iceworm/FilterExt.cs:49-68 | `VisitBinary`'s switch over the rendered operands; `FilterVisitor.LogicRendering`, `FilterVisitor.NullComparison`, `FilterVisitor.EqualityKeepsOrder`, `FilterVisitor.RelationalRendering` and `FilterVisitor.UnsupportedNamed` state its cases |
| FilterVisitor.Compile | Iceworm/FilterExt.cs:33-123 | compilation fails exactly outside `Compilable`, which covers unsupported operators, unsupported methods, unmapped members and null pattern arguments; on success the result is null exactly for null-valued nodes |
| FilterVisitor.Mirror | Iceworm/FilterExt.cs:62-65 | the mirror of a relational operator is relational |
| FilterVisitor.MirrorPreservesMeaning | Iceworm/FilterExt.cs:62-65 | the mirrored operator with swapped operands means the same as the original, and mirroring twice is the identity |
| FilterVisitor.RelationalRendering | Iceworm/FilterExt.cs:45-65 | relational nodes keep operand order and operator unless the left operand is a constant or a captured field; then they swap the operands and mirror the operator |
| FilterVisitor.FlippedConstantComparison | Iceworm/FilterExt.cs:45-62 | `c > x.P` compiles to `(column < c)` |
| FilterVisitor.NullComparison | Iceworm/FilterExt.cs:54-55 | `=` and `<>` against the null literal on either side give `(x IS NULL)` and `(x IS NOT NULL)` |
| FilterVisitor.EqualityKeepsOrder | Iceworm/FilterExt.cs:54-55 | without a null operand, `=`/`<>` render `(l = r)`/`(l <> r)` in source order |
| FilterVisitor.CapturedNullFallsThrough | Iceworm/FilterExt.cs:82-85 | a captured variable holding null is looked up as a property: a missing-key error when no property has its name, and a column comparison (never IS NULL) when one does |
| FilterVisitor.LogicRendering | Iceworm/FilterExt.cs:51-52 | `&&` gives `(l AND r)` and `\|\|` gives `(l OR r)`, operands in source order |
| FilterVisitor.UnaryRendering | Iceworm/FilterExt.cs:106-111 | `!` gives `NOT (e)`, and a conversion renders as its operand |
| FilterVisitor.Parenthesised | Iceworm/FilterExt.cs:49-98 | every binary or call rendering starts with `(` and ends with `)` |
| FilterVisitor.UnsupportedNamed | Iceworm/FilterExt.cs:67-113 | an unsupported binary node, unary node or method name is an error naming it |
| FilterVisitor.ConstantRendering | Iceworm/FilterExt.cs:35-41 | a string renders as `'s'` without escaping, a date as `TIMESTAMP 'yyyy-MM-dd HH:mm:ss'`, null as absent, and integers and booleans as their `ToString()` |
| FilterVisitor.MemberRendering | Iceworm/FilterExt.cs:80-88 | a captured non-null value renders as its constant; any other member renders as its mapped column, or fails when it is not mapped |
| FilterVisitor.ReplaceTrailingQuote | Iceworm/FilterExt.cs:98 | `Regex.Replace(s, "'$", "%'")`: a quote at the end, or just before a final newline, becomes `%'`; `FilterVisitor.LiteralPatterns` states its effect on a quoted literal |
| FilterVisitor.ReplaceLeadingQuote | Iceworm/FilterExt.cs:97 | `Regex.Replace(s, "^'", "'%")`: a quote at the start becomes `'%`; `FilterVisitor.LiteralPatterns` states its effect on a quoted literal |
| FilterVisitor.Pattern | Iceworm/FilterExt.cs:94-101 | the LIKE pattern each supported method makes of its rendered argument: both rewrites for `Contains`, the leading one for `EndsWith`, the trailing one for `StartsWith`; `FilterVisitor.LiteralPatterns` and `FilterVisitor.PatternCallMeaning` state what it selects |
| FilterVisitor.LiteralPatterns | Iceworm/FilterExt.cs:96-98 | on a quoted literal, `StartsWith` appends `%`, `EndsWith` prepends `%`, `Contains` does both, and the text inside is unchanged |
| FilterVisitor.PatternCall | Iceworm/FilterExt.cs:94-98 | a supported method call on a literal compiles to `(column LIKE pattern)` |
| FilterVisitor.PatternCallMeaning | Iceworm/FilterExt.cs:94-98 | for a literal without wildcards or quotes, the pattern accepts a text under the reference LIKE exactly when the ordinal, case-sensitive reading of the method holds of it |
| FilterVisitor.SortKeyMember | Iceworm/FilterExt.cs:16-18 | a sort key is a member access, or one unary node around a member access, and the key is that member's name; any other body is an invalid cast |
| Like.PlainMatchesItself | Iceworm/FilterExt.cs:96-98 | a pattern without wildcards matches exactly itself |
| Like.PercentMatchesAll | Iceworm/FilterExt.cs:96 | `%` matches every text |
| Like.LeadingPercent | Iceworm/FilterExt.cs:96-97 | a leading `%` matches exactly when the rest matches some suffix |
| Like.PrefixPattern | Iceworm/FilterExt.cs:98 | `s%` matches exactly the texts starting with `s` |
| Like.SuffixPattern | Iceworm/FilterExt.cs:97 | `%s` matches exactly the texts ending with `s` |
| Like.SubstringPattern | Iceworm/FilterExt.cs:96 | `%s%` matches exactly the texts containing `s` |
| Features.FeatureClass.Where | Iceworm/FeatureClass.cs:111-114 | `Where(string)`: a copy with `(c)` appended to the WHERE clauses; `Features.BuilderLaws` and `Features.ReadFilterAfterWhere` state its effect |
| Features.FeatureClass.WhereGeometry | Iceworm/FeatureClass.cs:106-109 | `Where(geometry, relationship)`: a copy with the spatial filter replaced, `Intersects` by default; `Features.BuilderLaws` and `Features.LastSpatialFilterWins` state its effect |
| Features.FeatureClass.OrderBy | Iceworm/FeatureClass.cs:116-119 | `OrderBy(string, bool)`: a copy with the field, and ` DESC` when descending, appended to the ORDER BY keys; `Features.BuilderLaws` and `Features.ReadFilterAfterOrderBy` state its effect |
| Features.FeatureClass.ReadFilter | Iceworm/FeatureClass.cs:123-135 | the query filter `IterateCursor` searches with; `Features.ReadFilterComposition`, `Features.ReadFilterAfterWhere` and `Features.ReadFilterAfterOrderBy` state its parts |
| Features.FeatureClass.DeleteFilter | Iceworm/FeatureClass.cs:229-238 | the query filter `Delete` removes rows with; `Features.DeleteFilterComposition` states its parts |
| Features.FeatureClass.InsertedRowQuery | Iceworm/FeatureClass.cs:212-214 | the descriptor `Insert(item)` re-queries with; `Features.InsertedRowQueryFilter` states its clauses |
| Features.BuilderLaws | Iceworm/FeatureClass.cs:79-119 | `Where` appends `(c)` and `OrderBy` appends `f` or `f DESC`; each builder changes only its own part, the relationship defaults to `Intersects`, and builders of different kinds commute |
| Features.LastSpatialFilterWins | Iceworm/FeatureClass.cs:91-109 | a later spatial filter replaces an earlier one |
| Features.ReadFilterAfterWhere | Iceworm/FeatureClass.cs:96-126 | after `Where(c)`, the WHERE text is the old one with ` AND (c)` appended, or `(c)` alone; nothing else in the read filter changes, and the delete filter's WHERE text is the same |
| Features.ReadFilterAfterOrderBy | Iceworm/FeatureClass.cs:101-127 | after `OrderBy`, the postfix grows by `,key`, or becomes `ORDER BY key`; the WHERE text and the delete filter are unchanged |
| Features.ReadFilterComposition | Iceworm/FeatureClass.cs:123-135 | with no clauses, the WHERE text and the postfix are empty; `SubFields` joins the mapped lower-case names; the spatial part is attached exactly when the geometry is non-null |
| Features.DeleteFilterComposition | Iceworm/FeatureClass.cs:229-238 | the delete filter shares the read filter's WHERE text and spatial part, and sets nothing else |
| Features.InsertedRowQueryFilter | Iceworm/FeatureClass.cs:213-214 | the re-query after a single insert keeps the receiver's clauses and spatial filter, and adds `(oid = n)` |
| Features.ConnectionKind | Iceworm/FeatureClass.cs:41-50 | `.gdb`, then `.geodatabase`, then `.sde`, checked in that order, choose the connection; any other path is an unsupported-format error |
| Features.Opened | Iceworm/FeatureClass.cs:35-71 | the constructor as a value: connection kind, then column index, then object-id column, then mapping, each stopping at its error; `Features.OpenedSpec` states when it succeeds and what it builds |
| Features.Open | Iceworm/FeatureClass.cs:35-71 | the constructor computes `Opened`: connection kind, then column index, then object-id column, then mapping |
| Features.OpenedSpec | Iceworm/FeatureClass.cs:35-71 | opening succeeds exactly when the suffix is supported, the column names are distinct ignoring case, there is exactly one OID column and the mapping builds; the descriptor is then fresh, names the OID column and has a valid mapping |
| FilterExt.Where | Iceworm/FilterExt.cs:9-12 | `Where(expr)`: the compiled text handed to `Where(string)`; `FilterExt.WhereSpec` and `FilterExt.WhereReadFilter` state its effect |
| FilterExt.OrderBy | Iceworm/FilterExt.cs:14-21 | `OrderBy(expr, descending)`: the sort key's mapped field handed to `OrderBy(string, bool)`; `FilterExt.OrderBySpec`, `FilterExt.OrderByProperty` and `FilterExt.OrderByUnwrapsConversion` state its effect |
| FilterExt.WhereSpec | Iceworm/FilterExt.cs:9-12 | `Where(expr)` succeeds exactly when the expression compiles, and then appends exactly its text; otherwise it fails with the compiler's error, so there is never a silently unfiltered query |
| FilterExt.WhereReadFilter | Iceworm/FilterExt.cs:9-12 | the read filter after `Where(expr)` joins the earlier clauses and the compiled one with ` AND ` |
| FilterExt.OrderBySpec | Iceworm/FilterExt.cs:14-21 | `OrderBy(expr)` equals `OrderBy(fieldName, desc)` for the field mapped to the named member; a body that is not a member is an invalid cast, and an unmapped name is a missing key |
| FilterExt.OrderByProperty | Iceworm/FilterExt.cs:14-21 | `OrderBy(x => x.P, desc)` for a mapped `P` appends exactly one key, `P`'s column with ` DESC` when descending, and changes nothing else |
| FilterExt.OrderByUnwrapsConversion | Iceworm/FilterExt.cs:16-17 | wrapping the sort key in a conversion changes nothing |
| FilterExt.ContainsQuery | TestProject/UnitTest.cs:88-97 | on a fresh descriptor, `Where(x => x.P.Contains(s))` searches with `((column LIKE '%s%'))`, which under the reference LIKE selects exactly the values containing `s` |
| Rows.MaterializeFrom | Iceworm/FeatureClass.cs:143-159 | the materialisation loop over the bindings in mapping order, stopping at the first failing binding; `Rows.MaterializeOutcome` and `Rows.MaterializedValues` state its outcome |
| Rows.MaterializeOutcome | Iceworm/FeatureClass.cs:143-159 | materialisation fails exactly when a non-null column does not convert to its property's underlying type, or the property has no setter; the error is that of the first such binding and names the value type, the property type and `T` |
| Rows.MaterializedValues | Iceworm/FeatureClass.cs:143-159 | after materialisation, each mapped property holds its converted column value, or its default when the column is null; all other properties are untouched |
| Rows.Materialize | Iceworm/FeatureClass.cs:141-159 | the loop computes `MaterializeFrom` over the mapping's bindings, starting from the uninitialised record |
| Rows.WrittenFrom | Iceworm/FeatureClass.cs:169-173 | the write-back loop over the bindings in mapping order; `Rows.WrittenColumns` states the columns it leaves |
| Rows.WrittenColumns | Iceworm/FeatureClass.cs:169-173 | after write-back, every editable mapped column holds the record's value; every other column, the object id included, keeps its value |
| Rows.Row.constructor | Iceworm/FeatureClass.cs:140 | a row starts with its columns and no stored state |
| Rows.Row.Store | Iceworm/FeatureClass.cs:175 | storing persists the current columns |
| Rows.WriteBack | Iceworm/FeatureClass.cs:169-173 | the loop computes `WrittenFrom` from the old columns, in place; the insert loop at lines 196-200 is the same loop over the row buffer |
| Rows.RoundTrip | Iceworm/FeatureClass.cs:143-175 | under an identity conversion, writing back an unedited record writes each non-null editable column back unchanged, and writes the property default into a null one |
| Rows.RecordRoundTrip | Iceworm/FeatureClass.cs:143-173 | under an identity conversion, with every property settable, reading back a record just written into a row succeeds; each editable property holds the record's value, or the default when that value is null, and each read-only property holds the row's value |
| Rows.Query | Iceworm/FeatureClass.cs:121-185 | the records yielded are the materialisations of the rows, in order, up to the first failing row; the error is that row's |
| Rows.Update | Iceworm/FeatureClass.cs:161-178 | as driven by `Update` (lines 217-225), each row, in order, is materialised, edited, written back and stored; a failing row ends the pass, leaving the earlier rows stored and the later ones untouched |
| Rows.InsertCursor.constructor | Iceworm/FeatureClass.cs:191 | a fresh cursor has inserted nothing |
| Rows.InsertCursor.Insert | Iceworm/FeatureClass.cs:202 | inserting records a copy of the buffer and returns its object id |
| Rows.BufferAfter | Iceworm/FeatureClass.cs:194-200 | the reused row buffer after the write-backs of a list of items; `Rows.BufferAfterKeeps` and `Rows.BufferStatesSpec` state its columns |
| Rows.BufferStates | Iceworm/FeatureClass.cs:194-204 | the buffer states inserted, one per item, in order; `Rows.BufferStatesAt` and `Rows.BufferStatesSpec` state them |
| Rows.BufferStatesAt | Iceworm/FeatureClass.cs:194-204 | the k-th inserted state is the reused buffer after the first k+1 items |
| Rows.BufferAfterKeeps | Iceworm/FeatureClass.cs:193-200 | columns that are not editable mapped columns keep the fresh buffer's value through any number of items |
| Rows.BufferStatesSpec | Iceworm/FeatureClass.cs:193-204 | the state inserted for the k-th item holds that item's value in every editable mapped column, so nothing leaks from earlier items; every other column keeps the fresh buffer's value |
| Rows.InsertAll | Iceworm/FeatureClass.cs:187-208 | one buffer state is inserted per item, in order; on success there is one object id per item, in item order; an id outside the `int` range ends the loop with an overflow, after its row was inserted |
| Rows.SingleRecord | Iceworm/FeatureClass.cs:214 | `Single()` over the lazily materialised rows: no row gives no matching element; one row gives its record; two or more give the first failure among the first two rows, else more than one matching element |
| Rows.InsertOne | Iceworm/FeatureClass.cs:210-215 | the item is inserted alone; the result is the re-query descriptor on the new id and the single record read back, or the first error |

## Left out

- `Iceworm/ShapeExt.cs` is not part of this model. It only forwards to the ArcGIS geometry engine, which is floating-point geometry in a foreign library.
- Host initialisation, the apartment-state setup and the static `hostInitialized` flag are left out; they are process plumbing.
- Opening the `Geodatabase` and the `Table` is left out: it is a foreign call. The model receives the table's schema instead.
- `Dispose` is left out; it only releases foreign handles.
- `Path.GetFullPath`, and the `tablePath` constructor overload built on `Path.GetDirectoryName`/`GetFileName`, are left out. They depend on the file system and the current directory. `Features.Open` takes the resolved path.
- `Features.Open` puts the table name it was given into the missing-column error. The source uses the name the store reports (`Table.GetName()`), which is not available here.
- The store's evaluation is left out: WHERE text, ORDER BY, spatial relationships, `DeleteRows` and `Store()` persistence. `Delete` is modelled by the filter it sends (`DeleteFilter`).
- Cursor laziness is modelled only as the prefix of records yielded before the first error. A consumer that stops early is not modelled.
- `Rows.InsertCursor.Insert`: the store's object-id allocation is replaced by a sequential counter. `Rows.InsertAll` and `Rows.InsertOne` state their ids in terms of that counter.
- Reflection is abstract: `GetUninitializedObject` is the `blank` record, and `Convert.ChangeType` and `GetType()` are parameters. The `Action<T>` overload of `Update` is the `Func<T, T>` pass, with an edit function that returns its argument. In-place mutation of the record through aliases is not modelled.
- Three exceptions are not modelled: `p.GetValue(after)` throwing when `edit` returns null or the property has no getter (Iceworm/FeatureClass.cs:171), and `.ToLower()` throwing on a null value in the rename table (Iceworm/FeatureClass.cs:64). Records are total maps whose missing properties read as null, and rename values are non-null strings.
- `FilterVisitor.DateTimeText` writes `:` between the time fields. In .NET's custom format, `:` is the current culture's time separator, so another culture can print a different character.
- `FilterVisitor.PatternCallMeaning`: `Like.Like` is an assumed case-sensitive LIKE with no escape character, since the store's real LIKE is not modelled. `StartsWith(string)` and `EndsWith(string)` are read ordinally, while .NET compares them under the current culture: with ICU, `"\u00ADabc".StartsWith("abc")` is true, and the ordinal reading is false. `Contains(string)` is ordinal in .NET too, so for `FilterExt.ContainsQuery` only the LIKE assumption applies.
- Floating-point constants and culture-specific `ToString()` are left out. Constants are strings, dates as integer components, integers and booleans.
- Text.EndsWith: compared ordinally. The constructor's suffix checks (Iceworm/FeatureClass.cs:41-47) call the culture-sensitive `EndsWith(string)` overload, under which characters the culture ignores can still let a suffix match; that is not modelled.
- `Text.ToLower` maps only ASCII letters. Culture-sensitive lower-casing of other characters is not modelled.
- The extra list entries that the visitor's `base.VisitX` calls append are left out, because they are never read.
- The tests and the demo program need a sample geodatabase. `FilterExt.ContainsQuery` restates one of the tests' claims about the compiled filter.
