/**
 * The predicate compiler: `FilterVisitor` turns a boolean expression over the
 * record type into the text of a WHERE clause, resolving property accesses
 * through the field mapping.
 *
 * Each visit of the source appends renderings to the visitor's list and the
 * caller reads only the first entry, which is the rendering of the node
 * visited; children are rendered by fresh visitors. The model is therefore a
 * function from a node to its rendering: `Success(None)` is the rendering of
 * a null constant, `Failure` the exception the visit throws.
 */
module FilterVisitor {
  import opened Wrappers
  import opened Errors
  import opened Text
  import opened Dictionaries
  import opened Mappings
  import Like

  /** The constants an expression can carry: strings, timestamps, integers and booleans. */
  datatype Value =
    | Str(s: string)
    | Timestamp(year: nat, month: nat, day: nat, hour: nat, minute: nat, second: nat)
    | Int(i: int)
    | Bool(b: bool)

  /** Binary `ExpressionType`s; every other one is `OtherBinary`, carrying its name. */
  datatype BinaryOp =
    | AndAlso | OrElse | Equal | NotEqual
    | GreaterThan | GreaterThanOrEqual | LessThan | LessThanOrEqual
    | OtherBinary(nodeType: string)

  /** Unary `ExpressionType`s; every other one is `OtherUnary`, carrying its name. */
  datatype UnaryOp = Not | Convert | OtherUnary(nodeType: string)

  /** The expression tree handed to the compiler. */
  datatype Expr =
      /** A `ConstantExpression`; `None` is the null literal. */
    | Const(value: Option<Value>)
      /** A member access on the lambda's parameter (a property of the record). */
    | Prop(name: string)
      /** A field of a closure object captured by the lambda, with the value it holds. */
    | Captured(name: string, captured: Option<Value>)
    | Binary(binaryOp: BinaryOp, left: Expr, right: Expr)
    | Unary(unaryOp: UnaryOp, operand: Expr)
      /** An instance method call `obj.method(arg)`. */
    | Call(methodName: string, obj: Expr, arg: Expr)

  const SupportedMethods: set<string> := {"Contains", "EndsWith", "StartsWith"}

  /** The `yyyy-MM-dd HH:mm:ss` rendering of a timestamp. */
  function DateTimeText(year: nat, month: nat, day: nat, hour: nat, minute: nat, second: nat): string {
    Pad(year, 4) + "-" + Pad(month, 2) + "-" + Pad(day, 2) + " " + Pad(hour, 2) + ":" + Pad(minute, 2) + ":" + Pad(second, 2)
  }

  /**
   * For the component ranges of a .NET `DateTime`, the text has the fixed
   * layout `yyyy-MM-dd HH:mm:ss`, and each field reads back as its component.
   */
  lemma DateTimeFields(year: nat, month: nat, day: nat, hour: nat, minute: nat, second: nat)
    requires year < 10000 && month < 100 && day < 100 && hour < 100 && minute < 100 && second < 100
    ensures
      var t := DateTimeText(year, month, day, hour, minute, second);
      && |t| == 19
      && t[4] == '-' && t[7] == '-' && t[10] == ' ' && t[13] == ':' && t[16] == ':'
      && DigitsValue(t[..4]) == year && DigitsValue(t[5..7]) == month && DigitsValue(t[8..10]) == day
      && DigitsValue(t[11..13]) == hour && DigitsValue(t[14..16]) == minute && DigitsValue(t[17..]) == second
  {
    PadValue(year, 4);
    PadValue(month, 2);
    PadValue(day, 2);
    PadValue(hour, 2);
    PadValue(minute, 2);
    PadValue(second, 2);
    DateTimeLayout(Pad(year, 4), Pad(month, 2), Pad(day, 2), Pad(hour, 2), Pad(minute, 2), Pad(second, 2));
  }

  /** Six fields of widths 4, 2, 2, 2, 2 and 2 joined by `-`, `-`, ` `, `:` and `:` sit at fixed offsets. */
  lemma DateTimeLayout(y: string, mo: string, d: string, h: string, mi: string, s: string)
    requires |y| == 4 && |mo| == 2 && |d| == 2 && |h| == 2 && |mi| == 2 && |s| == 2
    ensures
      var t := y + "-" + mo + "-" + d + " " + h + ":" + mi + ":" + s;
      && |t| == 19
      && t[4] == '-' && t[7] == '-' && t[10] == ' ' && t[13] == ':' && t[16] == ':'
      && t[..4] == y && t[5..7] == mo && t[8..10] == d && t[11..13] == h && t[14..16] == mi && t[17..] == s
  {
    var p1 := y + "-";
    var p2 := p1 + mo;
    var p4 := p2 + "-" + d;
    var p6 := p4 + " " + h;
    var p8 := p6 + ":" + mi;
    var t := p8 + ":" + s;
    FieldAt(p8 + ":", s, t);
    FieldAt(p6 + ":", mi, t);
    FieldAt(p4 + " ", h, t);
    FieldAt(p2 + "-", d, t);
    FieldAt(p1, mo, t);
    FieldAt([], y, t);
  }

  /** A text that starts with `p + x` holds `x` right after `p`. */
  lemma FieldAt(p: string, x: string, t: string)
    requires p + x <= t
    ensures t[|p|..|p| + |x|] == x
  {
    assert t[..|p| + |x|] == p + x;
  }

  /** `GetValue`: the literal text of a constant, `None` for null. Strings are quoted and not escaped. */
  function GetValue(v: Option<Value>): (r: Option<string>)
    ensures r.None? <==> v.None?
  {
    match v
    case None => None
    case Some(Str(s)) => Some("'" + s + "'")
    case Some(Timestamp(y, mo, d, h, mi, s)) => Some("TIMESTAMP '" + DateTimeText(y, mo, d, h, mi, s) + "'")
    case Some(Int(i)) => Some(IntToString(i))
    case Some(Bool(b)) => Some(if b then "True" else "False")
  }

  /** An integer literal's digits denote it, after a minus sign when it is negative. */
  lemma IntLiteralReadsBack(i: int)
    ensures var r := GetValue(Some(Int(i))).value;
      && (i >= 0 ==> DigitsValue(r) == i)
      && (i < 0 ==> |r| >= 2 && r[0] == '-' && DigitsValue(r[1..]) == -i)
  {
    IntToStringValue(i);
  }

  /** A string literal holds the string unchanged between two single quotes. */
  lemma StringLiteralReadsBack(s: string)
    ensures var q := GetValue(Some(Str(s))).value;
      Enclosed(q, "'", s, "'")
  {
    EnclosedText("'", s, "'");
  }

  /** A timestamp literal holds its `yyyy-MM-dd HH:mm:ss` text between `TIMESTAMP '` and a quote. */
  lemma TimestampLiteralReadsBack(year: nat, month: nat, day: nat, hour: nat, minute: nat, second: nat)
    ensures var q := GetValue(Some(Timestamp(year, month, day, hour, minute, second))).value;
      Enclosed(q, "TIMESTAMP '", DateTimeText(year, month, day, hour, minute, second), "'")
  {
    EnclosedText("TIMESTAMP '", DateTimeText(year, month, day, hour, minute, second), "'");
  }

  /** `t` is `x` with `open` before it and `close` after it, read back by slicing. */
  ghost predicate Enclosed(t: string, open: string, x: string, close: string)
  {
    && |t| == |open| + |x| + |close|
    && t[..|open|] == open
    && t[|open|..|open| + |x|] == x
    && t[|open| + |x|..] == close
  }

  lemma EnclosedText(open: string, x: string, close: string)
    ensures Enclosed(open + x + close, open, x, close)
  {
    var t := open + x + close;
    FieldAt([], open, t);
    FieldAt(open, x, t);
    assert t[|open| + |x|..] == close;
  }

  /** A possibly-null string placed in an interpolated string: null contributes nothing. */
  function Show(s: Option<string>): string {
    if s.Some? then s.value else ""
  }

  /** A comparison is flipped when its left operand is a constant or a field access. */
  predicate IsFlipped(left: Expr) {
    left.Const? || left.Captured?
  }

  /** The rendering switch of `VisitBinary`, over the already rendered operands. */
  function RenderBinary(op: BinaryOp, flipped: bool, left: Option<string>, right: Option<string>): Result<Option<string>, Error> {
    var l, r := Show(left), Show(right);
    match op
    case AndAlso => Success(Some("(" + l + " AND " + r + ")"))
    case OrElse => Success(Some("(" + l + " OR " + r + ")"))
    case Equal =>
      Success(Some(if right.None? then "(" + l + " IS NULL)" else if left.None? then "(" + r + " IS NULL)" else "(" + l + " = " + r + ")"))
    case NotEqual =>
      Success(Some(if right.None? then "(" + l + " IS NOT NULL)" else if left.None? then "(" + r + " IS NOT NULL)" else "(" + l + " <> " + r + ")"))
    case GreaterThan => Success(Some(if !flipped then "(" + l + " > " + r + ")" else "(" + r + " < " + l + ")"))
    case GreaterThanOrEqual => Success(Some(if !flipped then "(" + l + " >= " + r + ")" else "(" + r + " <= " + l + ")"))
    case LessThan => Success(Some(if !flipped then "(" + l + " < " + r + ")" else "(" + r + " > " + l + ")"))
    case LessThanOrEqual => Success(Some(if !flipped then "(" + l + " <= " + r + ")" else "(" + r + " >= " + l + ")"))
    case OtherBinary(n) => Failure(NotSupported(n))
  }

  /** `Regex.Replace(s, "'$", "%'")`: a quote at the end, or just before a final newline, becomes `%'`. */
  function ReplaceTrailingQuote(s: string): string {
    if |s| >= 1 && s[|s| - 1] == '\'' then s[..|s| - 1] + "%'"
    else if |s| >= 2 && s[|s| - 2..] == "'\n" then s[..|s| - 2] + "%'\n"
    else s
  }

  /** `Regex.Replace(s, "^'", "'%")`: a quote at the start becomes `'%`. */
  function ReplaceLeadingQuote(s: string): string {
    if |s| >= 1 && s[0] == '\'' then "'%" + s[1..] else s
  }

  /** The LIKE pattern each supported method makes of its rendered argument. */
  function Pattern(methodName: string, arg: string): string
    requires methodName in SupportedMethods
  {
    if methodName == "Contains" then ReplaceLeadingQuote(ReplaceTrailingQuote(arg))
    else if methodName == "EndsWith" then ReplaceLeadingQuote(arg)
    else ReplaceTrailingQuote(arg)
  }

  /** A node whose rendering is the null literal: a null constant, possibly under conversions. */
  predicate NullValued(e: Expr) {
    match e
    case Const(v) => v.None?
    case Unary(op, x) => op.Convert? && NullValued(x)
    case _ => false
  }

  /**
   * The expressions the compiler accepts, defined without rendering anything:
   * only supported operators and methods, every member that is not a captured
   * non-null value names a mapped property, and no pattern argument is null.
   */
  predicate Compilable(e: Expr, m: Mapping) {
    match e
    case Const(_) => true
    case Prop(n) => n in Keys(m.propertyName)
    case Captured(n, v) => v.Some? || n in Keys(m.propertyName)
    case Binary(op, l, r) => !op.OtherBinary? && Compilable(l, m) && Compilable(r, m)
    case Unary(op, x) => !op.OtherUnary? && Compilable(x, m)
    case Call(meth, o, a) => meth in SupportedMethods && Compilable(o, m) && Compilable(a, m) && !NullValued(a)
  }

  /**
   * `FilterVisitor.Eval(e, mapping)`: the WHERE text for `e`. It fails exactly
   * on the expressions outside `Compilable`, producing no partial text, and its
   * result is null exactly for null-valued nodes.
   */
  function Compile(e: Expr, m: Mapping): (r: Result<Option<string>, Error>)
    ensures r.Success? <==> Compilable(e, m)
    ensures r.Success? ==> (r.value.None? <==> NullValued(e))
  {
    match e
    case Const(v) => Success(GetValue(v))
    case Prop(n) =>
      var f :- PropertyField(m, n);
      Success(Some(f.name))
    case Captured(n, v) =>
      if v.Some? then Success(GetValue(v))
      else
        var f :- PropertyField(m, n);
        Success(Some(f.name))
    case Binary(op, l, r) =>
      var flipped := IsFlipped(l);
      var left :- Compile(l, m);
      var right :- Compile(r, m);
      RenderBinary(op, flipped, left, right)
    case Unary(op, x) =>
      (match op
       case Convert => Compile(x, m)
       case Not =>
         var s :- Compile(x, m);
         Success(Some("NOT (" + Show(s) + ")"))
       case OtherUnary(n) => Failure(NotSupported(n)))
    case Call(meth, o, a) =>
      if meth !in SupportedMethods then Failure(NotSupported(meth))
      else
        var obj :- Compile(o, m);
        var arg :- Compile(a, m);
        if arg.None? then Failure(ArgumentNull)
        else Success(Some("(" + Show(obj) + " LIKE " + Pattern(meth, arg.value) + ")"))
  }

  /** The text of a relational operator, with the spaces around it. */
  function Symbol(op: BinaryOp): string
    requires op.GreaterThan? || op.GreaterThanOrEqual? || op.LessThan? || op.LessThanOrEqual?
  {
    match op
    case GreaterThan => " > "
    case GreaterThanOrEqual => " >= "
    case LessThan => " < "
    case LessThanOrEqual => " <= "
  }

  /** The relational operator that says the same thing with its operands swapped. */
  function Mirror(op: BinaryOp): (r: BinaryOp)
    requires op.GreaterThan? || op.GreaterThanOrEqual? || op.LessThan? || op.LessThanOrEqual?
    ensures r.GreaterThan? || r.GreaterThanOrEqual? || r.LessThan? || r.LessThanOrEqual?
  {
    match op
    case GreaterThan => LessThan
    case GreaterThanOrEqual => LessThanOrEqual
    case LessThan => GreaterThan
    case LessThanOrEqual => GreaterThanOrEqual
  }

  /** What a relational operator asserts of two integers. */
  predicate Holds(op: BinaryOp, x: int, y: int)
    requires op.GreaterThan? || op.GreaterThanOrEqual? || op.LessThan? || op.LessThanOrEqual?
  {
    match op
    case GreaterThan => x > y
    case GreaterThanOrEqual => x >= y
    case LessThan => x < y
    case LessThanOrEqual => x <= y
  }

  /** Mirroring swaps the operands without changing the meaning, and undoes itself. */
  lemma MirrorPreservesMeaning(op: BinaryOp, x: int, y: int)
    requires op.GreaterThan? || op.GreaterThanOrEqual? || op.LessThan? || op.LessThanOrEqual?
    ensures Holds(Mirror(op), y, x) == Holds(op, x, y)
    ensures Mirror(Mirror(op)) == op
  {
  }

  /**
   * A relational comparison keeps operand order and operator when its left
   * operand is neither a constant nor a field; otherwise it swaps the operands
   * and mirrors the operator.
   */
  lemma RelationalRendering(op: BinaryOp, l: Expr, r: Expr, m: Mapping, a: string, b: string)
    requires op.GreaterThan? || op.GreaterThanOrEqual? || op.LessThan? || op.LessThanOrEqual?
    requires Compile(l, m) == Success(Some(a)) && Compile(r, m) == Success(Some(b))
    ensures !IsFlipped(l) ==> Compile(Binary(op, l, r), m) == Success(Some("(" + a + Symbol(op) + b + ")"))
    ensures IsFlipped(l) ==> Compile(Binary(op, l, r), m) == Success(Some("(" + b + Symbol(Mirror(op)) + a + ")"))
  {
    assert Compile(Binary(op, l, r), m) == RenderBinary(op, IsFlipped(l), Some(a), Some(b));
    RelationalText(op, IsFlipped(l), a, b);
  }

  /** The relational cases of the rendering switch, with the symbol spelled out. */
  lemma RelationalText(op: BinaryOp, flipped: bool, a: string, b: string)
    requires op.GreaterThan? || op.GreaterThanOrEqual? || op.LessThan? || op.LessThanOrEqual?
    ensures RenderBinary(op, flipped, Some(a), Some(b)) == Success(Some(
      if !flipped then "(" + a + Symbol(op) + b + ")" else "(" + b + Symbol(Mirror(op)) + a + ")"))
  {
  }

  /** A constant on the left of `>` reads, after compiling, as the member on the left of `<`. */
  lemma FlippedConstantComparison(c: Value, n: string, m: Mapping)
    requires n in Keys(m.propertyName)
    ensures
      var f := Get(m.propertyName, n).field.name;
      Compile(Binary(GreaterThan, Const(Some(c)), Prop(n)), m) == Success(Some("(" + f + " < " + GetValue(Some(c)).value + ")"))
  {
    var f, v := Get(m.propertyName, n).field.name, GetValue(Some(c)).value;
    assert Compile(Const(Some(c)), m) == Success(Some(v));
    assert Compile(Prop(n), m) == Success(Some(f));
    assert IsFlipped(Const(Some(c)));
    RelationalRendering(GreaterThan, Const(Some(c)), Prop(n), m, v, f);
  }

  /** Equality and inequality against the null literal become IS [NOT] NULL on whichever side holds it; otherwise operand order is kept. */
  lemma NullComparison(x: Expr, m: Mapping, s: string)
    requires Compile(x, m) == Success(Some(s))
    ensures Compile(Binary(Equal, x, Const(None)), m) == Success(Some("(" + s + " IS NULL)"))
    ensures Compile(Binary(Equal, Const(None), x), m) == Success(Some("(" + s + " IS NULL)"))
    ensures Compile(Binary(NotEqual, x, Const(None)), m) == Success(Some("(" + s + " IS NOT NULL)"))
    ensures Compile(Binary(NotEqual, Const(None), x), m) == Success(Some("(" + s + " IS NOT NULL)"))
  {
  }

  lemma EqualityKeepsOrder(l: Expr, r: Expr, m: Mapping, a: string, b: string)
    requires Compile(l, m) == Success(Some(a)) && Compile(r, m) == Success(Some(b))
    ensures Compile(Binary(Equal, l, r), m) == Success(Some("(" + a + " = " + b + ")"))
    ensures Compile(Binary(NotEqual, l, r), m) == Success(Some("(" + a + " <> " + b + ")"))
  {
  }

  /**
   * A captured field holding null is not the null literal: it is looked up as
   * a property, so comparing with it fails unless a property of that name
   * exists, and never yields IS NULL.
   */
  lemma CapturedNullFallsThrough(n: string, x: Expr, m: Mapping)
    requires Compilable(x, m)
    ensures n !in Keys(m.propertyName) ==> Compile(Binary(Equal, x, Captured(n, None)), m) == Failure(KeyNotFound(n))
    ensures n in Keys(m.propertyName) && !NullValued(x) ==>
      Compile(Binary(Equal, x, Captured(n, None)), m) == Success(Some("(" + Compile(x, m).value.value + " = " + Get(m.propertyName, n).field.name + ")"))
  {
  }

  /** Conjunction and disjunction nodes. */
  lemma LogicRendering(l: Expr, r: Expr, m: Mapping, a: string, b: string)
    requires Compile(l, m) == Success(Some(a)) && Compile(r, m) == Success(Some(b))
    ensures Compile(Binary(AndAlso, l, r), m) == Success(Some("(" + a + " AND " + b + ")"))
    ensures Compile(Binary(OrElse, l, r), m) == Success(Some("(" + a + " OR " + b + ")"))
  {
  }

  /** Negation and conversion nodes. */
  lemma UnaryRendering(x: Expr, m: Mapping, a: string)
    requires Compile(x, m) == Success(Some(a))
    ensures Compile(Unary(Not, x), m) == Success(Some("NOT (" + a + ")"))
    ensures Compile(Unary(Convert, x), m) == Compile(x, m)
  {
  }

  /** Every binary and call rendering is enclosed in one pair of parentheses. */
  lemma Parenthesised(e: Expr, m: Mapping)
    requires e.Binary? || e.Call?
    requires Compile(e, m).Success?
    ensures Bracketed(Compile(e, m).value)
  {
    match e {
      case Binary(op, l, r) =>
        assert Compile(e, m) == RenderBinary(op, IsFlipped(l), Compile(l, m).value, Compile(r, m).value);
        RenderBinaryParenthesised(op, IsFlipped(l), Compile(l, m).value, Compile(r, m).value);
      case Call(meth, o, a) =>
        Infix(Show(Compile(o, m).value), " LIKE ", Pattern(meth, Compile(a, m).value.value));
    }
  }

  /** A rendering that is present and enclosed in one pair of parentheses. */
  predicate Bracketed(s: Option<string>) {
    s.Some? && |s.value| >= 2 && s.value[0] == '(' && s.value[|s.value| - 1] == ')'
  }

  /** Every successful rendering of the binary switch is enclosed in parentheses. */
  lemma RenderBinaryParenthesised(op: BinaryOp, flipped: bool, left: Option<string>, right: Option<string>)
    requires RenderBinary(op, flipped, left, right).Success?
    ensures Bracketed(RenderBinary(op, flipped, left, right).value)
  {
    if op.AndAlso? || op.OrElse? {
      LogicBracketed(op, flipped, left, right);
    } else if op.Equal? || op.NotEqual? {
      EqualityBracketed(op, flipped, left, right);
    } else {
      RelationalBracketed(op, flipped, left, right);
    }
  }

  lemma LogicBracketed(op: BinaryOp, flipped: bool, left: Option<string>, right: Option<string>)
    requires op.AndAlso? || op.OrElse?
    ensures Bracketed(RenderBinary(op, flipped, left, right).value)
  {
    Infix(Show(left), " AND ", Show(right));
    Infix(Show(left), " OR ", Show(right));
  }

  lemma EqualityBracketed(op: BinaryOp, flipped: bool, left: Option<string>, right: Option<string>)
    requires op.Equal? || op.NotEqual?
    ensures Bracketed(RenderBinary(op, flipped, left, right).value)
  {
    var l, r := Show(left), Show(right);
    if op.Equal? {
      Postfix(l, " IS NULL)"); Postfix(r, " IS NULL)"); Infix(l, " = ", r);
    } else {
      Postfix(l, " IS NOT NULL)"); Postfix(r, " IS NOT NULL)"); Infix(l, " <> ", r);
    }
  }

  lemma RelationalBracketed(op: BinaryOp, flipped: bool, left: Option<string>, right: Option<string>)
    requires op.GreaterThan? || op.GreaterThanOrEqual? || op.LessThan? || op.LessThanOrEqual?
    ensures Bracketed(RenderBinary(op, flipped, left, right).value)
  {
    var l, r := Show(left), Show(right);
    Infix(l, Symbol(op), r);
    Infix(r, Symbol(Mirror(op)), l);
    RelationalText(op, flipped, l, r);
  }

  /** `(a op b)` starts with `(` and ends with `)`. */
  lemma Infix(a: string, op: string, b: string)
    ensures Bracketed(Some("(" + a + op + b + ")"))
  {
    var s := "(" + a + op + b + ")";
    assert s == "(" + (a + op + b + ")");
  }

  /** `(a` followed by a tail ending in `)` starts with `(` and ends with `)`. */
  lemma Postfix(a: string, tail: string)
    requires |tail| >= 1 && tail[|tail| - 1] == ')'
    ensures Bracketed(Some("(" + a + tail))
  {
    var s := "(" + a + tail;
    assert s == "(" + (a + tail);
  }

  /** Unsupported operators and methods are errors naming them. */
  lemma UnsupportedNamed(m: Mapping, l: Expr, r: Expr, n: string)
    requires Compilable(l, m) && Compilable(r, m)
    ensures Compile(Binary(OtherBinary(n), l, r), m) == Failure(NotSupported(n))
    ensures Compile(Unary(OtherUnary(n), l), m) == Failure(NotSupported(n))
    ensures n !in SupportedMethods ==> Compile(Call(n, l, r), m) == Failure(NotSupported(n))
  {
  }

  /** Constant rendering: quoted strings, typed timestamps, null as absent, `ToString()` otherwise. */
  lemma ConstantRendering(m: Mapping, s: string, y: nat, mo: nat, d: nat, h: nat, mi: nat, sec: nat, i: int, b: bool)
    ensures Compile(Const(Some(Str(s))), m) == Success(Some("'" + s + "'"))
    ensures Compile(Const(Some(Timestamp(y, mo, d, h, mi, sec))), m) == Success(Some("TIMESTAMP '" + DateTimeText(y, mo, d, h, mi, sec) + "'"))
    ensures Compile(Const(None), m) == Success(None)
    ensures Compile(Const(Some(Int(i))), m) == Success(Some(IntToString(i)))
    ensures Compile(Const(Some(Bool(b))), m) == Success(Some(if b then "True" else "False"))
  {
  }

  /** Member access: a captured non-null value renders as its constant, everything else as the mapped column. */
  lemma MemberRendering(m: Mapping, n: string, v: Value)
    ensures Compile(Captured(n, Some(v)), m) == Success(GetValue(Some(v)))
    ensures Compile(Prop(n), m) == (if n in Keys(m.propertyName) then Success(Some(Get(m.propertyName, n).field.name)) else Failure(KeyNotFound(n)))
    ensures Compile(Captured(n, None), m) == Compile(Prop(n), m)
  {
  }

  /** The patterns made from a string literal: the quote boundaries become wildcards and the text between is kept. */
  lemma LiteralPatterns(s: string)
    ensures Pattern("StartsWith", "'" + s + "'") == "'" + (s + "%") + "'"
    ensures Pattern("EndsWith", "'" + s + "'") == "'" + ("%" + s) + "'"
    ensures Pattern("Contains", "'" + s + "'") == "'" + ("%" + s + "%") + "'"
  {
    TrailingOfQuoted(s);
    LeadingOfQuoted(s);
    LeadingOfQuoted(s + "%");
    assert "%" + (s + "%") == "%" + s + "%";
  }

  /** The trailing quote of a quoted literal gains a `%` before it. */
  lemma TrailingOfQuoted(s: string)
    ensures ReplaceTrailingQuote("'" + s + "'") == "'" + (s + "%") + "'"
  {
    var q := "'" + s + "'";
    assert q[|q| - 1] == '\'';
    assert q[..|q| - 1] == "'" + s;
    assert "'" + s + "%'" == "'" + (s + "%") + "'";
  }

  /** The leading quote of a quoted literal gains a `%` after it. */
  lemma LeadingOfQuoted(s: string)
    ensures ReplaceLeadingQuote("'" + s + "'") == "'" + ("%" + s) + "'"
  {
    var q := "'" + s + "'";
    assert q[0] == '\'';
    assert q[1..] == s + "'";
    assert "'%" + (s + "'") == "'" + ("%" + s) + "'";
  }

  /** A pattern method called with a string literal compiles to `(column LIKE 'pattern')`. */
  lemma PatternCall(meth: string, o: Expr, s: string, m: Mapping, c: string)
    requires meth in SupportedMethods
    requires Compile(o, m) == Success(Some(c))
    ensures Compile(Call(meth, o, Const(Some(Str(s)))), m) == Success(Some("(" + c + " LIKE " + Pattern(meth, "'" + s + "'") + ")"))
  {
  }

  /** The pattern between the quotes that each method makes of the literal `s`. */
  function LikeBody(methodName: string, s: string): string
    requires methodName in SupportedMethods
  {
    if methodName == "StartsWith" then s + "%"
    else if methodName == "EndsWith" then "%" + s
    else "%" + s + "%"
  }

  /**
   * The ordinal, case-sensitive reading of the method on `t`: starts with,
   * ends with, or contains `s`, character for character.
   */
  predicate MethodHolds(methodName: string, s: string, t: string)
    requires methodName in SupportedMethods
  {
    if methodName == "StartsWith" then s <= t
    else if methodName == "EndsWith" then Like.IsSuffix(s, t)
    else Like.IsSubstring(s, t)
  }

  /** A LIKE clause over a quoted pattern, regrouped. */
  lemma QuotedPattern(c: string, b: string)
    ensures "(" + c + " LIKE " + ("'" + b + "'") + ")" == "(" + c + " LIKE '" + b + "')"
  {
  }

  /**
   * A pattern call on a string literal compiles to `(column LIKE 'body')`, and
   * when the literal holds no wildcard or quote, the reference LIKE accepts a
   * column value exactly when the ordinal, case-sensitive reading of the
   * method holds of it.
   */
  lemma PatternCallMeaning(meth: string, o: Expr, s: string, m: Mapping, c: string, t: string)
    requires meth in SupportedMethods
    requires Compile(o, m) == Success(Some(c))
    requires Like.Plain(s)
    ensures Compile(Call(meth, o, Const(Some(Str(s)))), m) == Success(Some("(" + c + " LIKE '" + LikeBody(meth, s) + "')"))
    ensures Like.Like(LikeBody(meth, s), t) <==> MethodHolds(meth, s, t)
  {
    var b := LikeBody(meth, s);
    assert Compile(Call(meth, o, Const(Some(Str(s)))), m) == Success(Some("(" + c + " LIKE " + ("'" + b + "'") + ")")) by {
      LiteralPatterns(s);
      PatternCall(meth, o, s, m, c);
    }
    QuotedPattern(c, b);
    if meth == "StartsWith" {
      Like.PrefixPattern(s, t);
    } else if meth == "EndsWith" {
      Like.SuffixPattern(s, t);
    } else {
      Like.SubstringPattern(s, t);
    }
  }

  /** `OrderBy`'s body: a member access, or a unary node (a conversion to object) around one; its member name. */
  function SortKeyMember(body: Expr): (r: Result<string, Error>)
    ensures r.Success? <==> body.Prop? || body.Captured? || (body.Unary? && (body.operand.Prop? || body.operand.Captured?))
    ensures body.Prop? || body.Captured? ==> r == Success(body.name)
    ensures body.Unary? && (body.operand.Prop? || body.operand.Captured?) ==> r == Success(body.operand.name)
    ensures r.Failure? ==> r.error == InvalidCast
  {
    match body
    case Prop(n) => Success(n)
    case Captured(n, _) => Success(n)
    case Unary(_, x) =>
      (match x
       case Prop(n) => Success(n)
       case Captured(n, _) => Success(n)
       case _ => Failure(InvalidCast))
    case _ => Failure(InvalidCast)
  }
}
