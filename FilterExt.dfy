/**
 * The expression-based extensions on the descriptor: `Where(expression)`
 * compiles a predicate with `FilterVisitor` and adds its text as a WHERE
 * clause; `OrderBy(expression)` resolves the sort key's member to its
 * physical field and adds it as an ORDER BY key.
 */
module FilterExt {
  import opened Wrappers
  import opened Errors
  import opened Text
  import opened Dictionaries
  import opened Mappings
  import opened FilterVisitor
  import opened Features
  import Like

  /** `Where(context, expression)`: the compiled text handed to `Where(string)`. */
  function Where(context: FeatureClass, e: Expr): Result<FeatureClass, Error> {
    var s :- Compile(e, context.mapping);
    Success(context.Where(Show(s)))
  }

  /** `OrderBy(context, expression, descending)`: the sort key's mapped field handed to `OrderBy(string, bool)`. */
  function OrderBy(context: FeatureClass, body: Expr, descending: bool := false): Result<FeatureClass, Error> {
    var propertyName :- SortKeyMember(body);
    var f :- PropertyField(context.mapping, propertyName);
    Success(context.OrderBy(f.name, descending))
  }

  /**
   * A predicate either adds exactly its compiled text as one more clause, or
   * fails with the compiler's error: there is no silently unfiltered query.
   */
  lemma WhereSpec(context: FeatureClass, e: Expr)
    ensures Where(context, e).Success? <==> Compilable(e, context.mapping)
    ensures Where(context, e).Failure? ==> Where(context, e).error == Compile(e, context.mapping).error
    ensures Where(context, e).Success? ==>
      var d := Where(context, e).value;
      && d.whereClauses == context.whereClauses + ["(" + Show(Compile(e, context.mapping).value) + ")"]
      && d.orderByClauses == context.orderByClauses
      && d.spatialFilter == context.spatialFilter
      && d.mapping == context.mapping
  {
  }

  /** The read filter after an expression filter: earlier clauses `AND` the compiled one. */
  lemma WhereReadFilter(context: FeatureClass, e: Expr)
    requires Compilable(e, context.mapping)
    ensures
      var c := "(" + Show(Compile(e, context.mapping).value) + ")";
      Where(context, e).value.ReadFilter().whereClause ==
        if context.whereClauses == [] then c else context.ReadFilter().whereClause + " AND " + c
  {
    ReadFilterAfterWhere(context, Show(Compile(e, context.mapping).value));
  }

  /**
   * A sort key naming a mapped property, directly or under one unary node,
   * orders by that property's physical field exactly as the string overload
   * would; any other body is an invalid cast and an unmapped name a missing key.
   */
  lemma OrderBySpec(context: FeatureClass, body: Expr, descending: bool)
    ensures SortKeyMember(body).Failure? ==> OrderBy(context, body, descending) == Failure(InvalidCast)
    ensures SortKeyMember(body).Success? ==>
      var n := SortKeyMember(body).value;
      && (n !in Keys(context.mapping.propertyName) ==> OrderBy(context, body, descending) == Failure(KeyNotFound(n)))
      && (n in Keys(context.mapping.propertyName) ==>
            OrderBy(context, body, descending) == Success(context.OrderBy(Get(context.mapping.propertyName, n).field.name, descending)))
  {
  }

  /**
   * `OrderBy(x => x.P, descending)` for a mapped `P` appends exactly one key,
   * the field mapped to `P` with ` DESC` when descending, and leaves the
   * where clauses, the spatial filter and the mapping as they were.
   */
  lemma OrderByProperty(context: FeatureClass, p: string, descending: bool)
    requires p in Keys(context.mapping.propertyName)
    ensures
      var f := Get(context.mapping.propertyName, p).field.name;
      var r := OrderBy(context, Prop(p), descending);
      && r.Success?
      && r.value.orderByClauses == context.orderByClauses + [f + (if descending then " DESC" else "")]
      && r.value.whereClauses == context.whereClauses
      && r.value.spatialFilter == context.spatialFilter
      && r.value.mapping == context.mapping
  {
    OrderBySpec(context, Prop(p), descending);
  }

  /** Boxing the sort key in a conversion changes nothing. */
  lemma OrderByUnwrapsConversion(context: FeatureClass, n: string, descending: bool)
    ensures OrderBy(context, Unary(Convert, Prop(n)), descending) == OrderBy(context, Prop(n), descending)
  {
  }

  /** The `Contains` clause for column `f` and literal `s`, regrouped. */
  lemma ClauseText(f: string, s: string)
    ensures "(" + ("(" + f + " LIKE '" + ("%" + s + "%") + "')") + ")" == "((" + f + " LIKE '%" + s + "%'))"
  {
  }

  /**
   * A fresh descriptor filtered with `x => x.P.Contains(s)` for a plain `s`
   * searches with the single clause `((f LIKE '%s%'))`, `f` the field mapped to
   * `P`, and under the reference LIKE that pattern matches exactly the texts
   * containing `s`.
   */
  lemma ContainsQuery(context: FeatureClass, p: string, s: string, t: string)
    requires IsFresh(context)
    requires p in Keys(context.mapping.propertyName)
    requires Like.Plain(s)
    ensures
      var f := Get(context.mapping.propertyName, p).field.name;
      var r := Where(context, Call("Contains", Prop(p), Const(Some(Str(s)))));
      && r.Success?
      && r.value.ReadFilter().whereClause == "((" + f + " LIKE '%" + s + "%'))"
      && (Like.Like("%" + s + "%", t) <==> Like.IsSubstring(s, t))
  {
    var f := Get(context.mapping.propertyName, p).field.name;
    var e := Call("Contains", Prop(p), Const(Some(Str(s))));
    var text := "(" + f + " LIKE '" + ("%" + s + "%") + "')";
    assert Compile(e, context.mapping) == Success(Some(text)) by {
      assert Compile(Prop(p), context.mapping) == Success(Some(f));
      LiteralPatterns(s);
      PatternCall("Contains", Prop(p), s, context.mapping, f);
      QuotedPattern(f, "%" + s + "%");
    }
    assert Where(context, e).value.ReadFilter().whereClause == "(" + text + ")" by {
      WhereSpec(context, e);
      JoinSnoc(" AND ", [], "(" + text + ")");
    }
    ClauseText(f, s);
    Like.SubstringPattern(s, t);
  }
}
