/** The formula language: JSON-like values, the expression tree, and the evaluator that walks it.

    Python's own operators and the library helpers that this model does not spell out are supplied by
    a `Runtime`; every statement below holds for all runtimes.
 */
module Formulas {
  import opened Basics

  // ---------------------------------------------------------------------------------------------
  // Values
  // ---------------------------------------------------------------------------------------------

  /** `View` is the attribute view that wraps a dictionary while a formula runs; `Func` is a helper
      function named without being called. */
  datatype Value =
    | Null
    | Bool(b: bool)
    | Int(n: int)
    | Real(r: real)
    | Str(s: string)
    | List(items: seq<Value>)
    | Tuple(items: seq<Value>)
    | Dict(entries: map<string, Value>)
    | View(entries: map<string, Value>)
    | Func(name: string)

  type Context = map<string, Value>

  function Wrap(v: Value): Value {
    match v
    case Dict(m) => View(map k | k in m :: Wrap(m[k]))
    case List(s) => List(seq(|s|, i requires 0 <= i < |s| => Wrap(s[i])))
    case _ => v
  }

  function Unwrap(v: Value): Value {
    match v
    case View(m) => Dict(map k | k in m :: Unwrap(m[k]))
    case List(s) => List(seq(|s|, i requires 0 <= i < |s| => Unwrap(s[i])))
    case _ => v
  }

  /** No attribute view outside tuples: what a stored field value looks like. */
  predicate Plain(v: Value) {
    match v
    case View(_) => false
    case Dict(m) => forall k | k in m :: Plain(m[k])
    case List(s) => forall i | 0 <= i < |s| :: Plain(s[i])
    case _ => true
  }

  /** A value that enters a formula through the context and comes out untouched is unchanged. */
  lemma {:induction false} UnwrapWrap(v: Value)
    requires Plain(v)
    ensures Unwrap(Wrap(v)) == v
  {
    match v {
      case Dict(m) =>
        forall k | k in m
          ensures Unwrap(Wrap(m[k])) == m[k]
        {
          UnwrapWrap(m[k]);
        }
      case List(s) =>
        forall i | 0 <= i < |s|
          ensures Unwrap(Wrap(s[i])) == s[i]
        {
          UnwrapWrap(s[i]);
        }
      case _ =>
    }
  }

  function WrapContext(ctx: Context): Context {
    map k | k in ctx :: Wrap(ctx[k])
  }

  function Number(v: Value): Option<real> {
    match v
    case Bool(b) => Some(if b then 1.0 else 0.0)
    case Int(n) => Some(n as real)
    case Real(r) => Some(r)
    case _ => None
  }

  predicate Truthy(v: Value) {
    match v
    case Null => false
    case Bool(b) => b
    case Int(n) => n != 0
    case Real(r) => r != 0.0
    case Str(s) => s != ""
    case List(s) => s != []
    case Tuple(s) => s != []
    case Dict(m) => m != map[]
    case View(_) => true
    case Func(_) => true
  }

  /** Python's `all` and `any`. */
  predicate AllTrue(vs: seq<Value>) {
    forall i | 0 <= i < |vs| :: Truthy(vs[i])
  }

  predicate AnyTrue(vs: seq<Value>) {
    exists i | 0 <= i < |vs| :: Truthy(vs[i])
  }

  // ---------------------------------------------------------------------------------------------
  // Syntax
  // ---------------------------------------------------------------------------------------------

  datatype BinOp = Add | Sub | Mult | Div | Mod | OtherBinary
  datatype UnOp = USub | UAdd | OtherUnary
  datatype BoolOp = And | Or
  /** `OtherCompare` stands for the membership and identity operators. */
  datatype CmpOp = Eq | NotEq | Lt | LtE | Gt | GtE | OtherCompare

  /** `Unsupported` is any node outside the evaluator's allow list; its children still take part in
      reference collection. */
  datatype Expr =
    | Const(value: Value)
    | Name(id: string)
    | Attribute(target: Expr, attr: string)
    | ListExpr(elts: seq<Expr>)
    | TupleExpr(elts: seq<Expr>)
    | Boolean(bop: BoolOp, operands: seq<Expr>)
    | Compare(left: Expr, ops: seq<CmpOp>, comparators: seq<Expr>)
    | Conditional(test: Expr, body: Expr, orelse: Expr)
    | Call(func: Expr, args: seq<Expr>, keywords: seq<Option<string>>, keywordArgs: seq<Expr>)
    | Unary(uop: UnOp, operand: Expr)
    | Binary(op: BinOp, lhs: Expr, rhs: Expr)
    | Unsupported(children: seq<Expr>)

  const ALLOWED_FUNCTIONS: set<string> := {
    "sum", "avg", "min", "max", "count", "round", "floor", "ceil", "coalesce", "months_between",
    "days_between", "years_between", "contains", "lookup", "convert_unit", "format_currency",
    "format_percent", "iff" }

  /** Every name in the tree, called helpers included. */
  function Names(e: Expr): set<string>
    decreases e, 1
  {
    match e
    case Const(_) => {}
    case Name(id) => {id}
    case Attribute(target, _) => Names(target)
    case ListExpr(elts) => NamesOf(elts)
    case TupleExpr(elts) => NamesOf(elts)
    case Boolean(_, operands) => NamesOf(operands)
    case Compare(left, _, comparators) => Names(left) + NamesOf(comparators)
    case Conditional(test, body, orelse) => Names(test) + Names(body) + Names(orelse)
    case Call(func, args, _, keywordArgs) => Names(func) + NamesOf(args) + NamesOf(keywordArgs)
    case Unary(_, operand) => Names(operand)
    case Binary(_, lhs, rhs) => Names(lhs) + Names(rhs)
    case Unsupported(children) => NamesOf(children)
  }

  function NamesOf(es: seq<Expr>): set<string>
    decreases es, 0
  {
    if es == [] then {} else Names(es[0]) + NamesOf(es[1..])
  }

  /** A formula after compilation; `Broken` is one that the parser rejected. */
  datatype Formula = Parsed(tree: Expr) | Broken

  /** The field names a formula mentions, or nothing when it does not compile. */
  function CollectReferences(f: Formula, available: set<string>): Option<set<string>> {
    match f
    case Broken => None
    case Parsed(tree) => Some(Names(tree) * available)
  }

  // ---------------------------------------------------------------------------------------------
  // Evaluation
  // ---------------------------------------------------------------------------------------------

  /** Everything from `UnknownIdentifier` to `CircularDependency` is a formula validation error;
      `Uncaught` is any exception that the calculation loop lets through. */
  datatype Error =
    | ZeroDivision
    | TypeMismatch
    | UnknownIdentifier(id: string)
    | UnknownReference
    | ScalarAttribute
    | PrivateAttribute
    | NotCallable
    | KeywordUnpacking
    | UnsupportedSyntax
    | UnsupportedOperator
    | BadUnit
    | InvalidSyntax
    | CircularDependency
    | Uncaught

  type Outcome<+T> = Result<T, Error>

  /** What foreign code may do: it has no way to report an unknown name. */
  datatype Foreign<+T> = Done(value: T) | TypeFault | ZeroFault | UnitFault | OtherFault

  function Lift<T>(f: Foreign<T>): Outcome<T> {
    match f
    case Done(v) => Ok(v)
    case TypeFault => Raise(TypeMismatch)
    case ZeroFault => Raise(ZeroDivision)
    case UnitFault => Raise(BadUnit)
    case OtherFault => Raise(Uncaught)
  }

  datatype Runtime = Runtime(
    call: (string, seq<Value>, seq<(string, Value)>) -> Foreign<Value>,
    binary: (BinOp, Value, Value) -> Foreign<Value>,
    same: (Value, Value) -> bool,
    less: (CmpOp, Value, Value) -> Foreign<bool>)

  predicate Scalar(v: Value) {
    v.Null? || v.Bool? || v.Int? || v.Real? || v.Str?
  }

  function Same(l: Value, r: Value, rt: Runtime): bool {
    if Number(l).Some? && Number(r).Some? then Number(l) == Number(r)
    else if Scalar(l) && Scalar(r) then l == r
    else rt.same(l, r)
  }

  function CompareValues(op: CmpOp, l: Value, r: Value, rt: Runtime): Outcome<bool> {
    match op
    case OtherCompare => Ok(true)
    case Eq => Ok(Same(l, r, rt))
    case NotEq => Ok(!Same(l, r, rt))
    case _ =>
      if Number(l).Some? && Number(r).Some? then
        var x, y := Number(l).value, Number(r).value;
        Ok(match op case Lt => x < y case LtE => x <= y case Gt => x > y case _ => x >= y)
      else if l.Null? || r.Null? then Raise(TypeMismatch)
      else Lift(rt.less(op, l, r))
  }

  /** Python keeps integers integral under addition, subtraction, multiplication and modulo. */
  function Numeric(l: Value, r: Value, x: real): Value {
    if l.Real? || r.Real? then Real(x) else Int(x.Floor)
  }

  function Product(x: real, y: real): real {
    x * y
  }

  function BinaryValues(op: BinOp, l: Value, r: Value, rt: Runtime): Outcome<Value> {
    if op.OtherBinary? then Raise(UnsupportedOperator)
    else if op.Div? && Number(r) == Some(0.0) then Raise(ZeroDivision)
    else if Number(l).Some? && Number(r).Some? then
      var x, y := Number(l).value, Number(r).value;
      match op
      case Add => Ok(Numeric(l, r, x + y))
      case Sub => Ok(Numeric(l, r, x - y))
      case Mult => Ok(Numeric(l, r, Product(x, y)))
      case Div => Ok(Real(x / y))
      case Mod => if y == 0.0 then Raise(ZeroDivision) else Ok(Numeric(l, r, x - Product(y, (x / y).Floor as real)))
      case OtherBinary => Raise(UnsupportedOperator)
    else if l.Null? || (r.Null? && !(op.Mod? && l.Str?)) then Raise(TypeMismatch)
    else if op.Add? && l.Str? && r.Str? then Ok(Str(l.s + r.s))
    else Lift(rt.binary(op, l, r))
  }

  function UnaryValue(op: UnOp, v: Value): Outcome<Value> {
    if op.OtherUnary? then Raise(UnsupportedOperator)
    else match v
      case Bool(b) => Ok(Int(var n := if b then 1 else 0; if op.USub? then -n else n))
      case Int(n) => Ok(Int(if op.USub? then -n else n))
      case Real(r) => Ok(Real(if op.USub? then -r else r))
      case _ => Raise(TypeMismatch)
  }

  function Coalesce(args: seq<Value>): Value {
    if args == [] then Null
    else if !args[0].Null? then args[0]
    else Coalesce(args[1..])
  }

  function Apply(fn: Value, args: seq<Value>, kwargs: seq<(string, Value)>, rt: Runtime): Outcome<Value> {
    if !fn.Func? then Raise(TypeMismatch)
    else if fn.name == "coalesce" && kwargs == [] then Ok(Coalesce(args))
    else if fn.name == "iff" && |args| == 3 && kwargs == [] then
      Ok(if Truthy(args[0]) then args[1] else args[2])
    else Lift(rt.call(fn.name, args, kwargs))
  }

  function Evaluate(e: Expr, ctx: Context, rt: Runtime): Outcome<Value>
    decreases e, 1
  {
    match e
    case Const(v) => Ok(v)
    case Name(id) =>
      if id in ctx then Ok(ctx[id])
      else if id in ALLOWED_FUNCTIONS then Ok(Func(id))
      else Raise(UnknownIdentifier(id))
    case Attribute(target, attr) =>
      if "_" <= attr then Raise(PrivateAttribute)
      else
        var v :- Evaluate(target, ctx, rt);
        if v.View? then
          // The view's own method hides an entry of that name.
          Ok(if attr == "unwrap" then Func("unwrap") else if attr in v.entries then Wrap(v.entries[attr]) else Null)
        else if v.Dict? then Ok(if attr in v.entries then v.entries[attr] else Null)
        else Raise(ScalarAttribute)
    case ListExpr(elts) =>
      var vs :- EvaluateAll(elts, ctx, rt);
      Ok(List(vs))
    case TupleExpr(elts) =>
      var vs :- EvaluateAll(elts, ctx, rt);
      Ok(Tuple(vs))
    case Boolean(op, operands) =>
      var vs :- EvaluateAll(operands, ctx, rt);
      Ok(Bool(if op.And? then AllTrue(vs) else AnyTrue(vs)))
    case Compare(left, ops, comparators) =>
      var l :- Evaluate(left, ctx, rt);
      var b :- EvaluateChain(l, ops, comparators, ctx, rt);
      Ok(Bool(b))
    case Conditional(test, body, orelse) =>
      var t :- Evaluate(test, ctx, rt);
      if Truthy(t) then Evaluate(body, ctx, rt) else Evaluate(orelse, ctx, rt)
    case Call(func, args, keywords, keywordArgs) =>
      if !func.Name? || func.id !in ALLOWED_FUNCTIONS then Raise(NotCallable)
      else
        var fn :- Evaluate(func, ctx, rt);
        var vs :- EvaluateAll(args, ctx, rt);
        var kw :- EvaluateKeywords(keywords, keywordArgs, ctx, rt);
        Apply(fn, vs, kw, rt)
    case Unary(op, operand) =>
      var v :- Evaluate(operand, ctx, rt);
      UnaryValue(op, v)
    case Binary(op, lhs, rhs) =>
      var l :- Evaluate(lhs, ctx, rt);
      var r :- Evaluate(rhs, ctx, rt);
      BinaryValues(op, l, r, rt)
    case Unsupported(_) => Raise(UnsupportedSyntax)
  }

  function EvaluateAll(es: seq<Expr>, ctx: Context, rt: Runtime): Outcome<seq<Value>>
    decreases es, 0
  {
    if es == [] then Ok([])
    else
      var v :- Evaluate(es[0], ctx, rt);
      var vs :- EvaluateAll(es[1..], ctx, rt);
      Ok([v] + vs)
  }

  /** A comparison chain stops at the first link that fails; later operands are not evaluated. */
  function EvaluateChain(left: Value, ops: seq<CmpOp>, es: seq<Expr>, ctx: Context, rt: Runtime): Outcome<bool>
    decreases es, 0
  {
    if es == [] || ops == [] then Ok(true)
    else
      var right :- Evaluate(es[0], ctx, rt);
      var holds :- CompareValues(ops[0], left, right, rt);
      if !holds then Ok(false) else EvaluateChain(right, ops[1..], es[1..], ctx, rt)
  }

  /** A keyword without a name is dictionary unpacking, which is refused. */
  function EvaluateKeywords(
    keys: seq<Option<string>>, es: seq<Expr>, ctx: Context, rt: Runtime): Outcome<seq<(string, Value)>>
    decreases es, 0
  {
    if es == [] || keys == [] then Ok([])
    else if keys[0].None? then Raise(KeywordUnpacking)
    else
      var v :- Evaluate(es[0], ctx, rt);
      var vs :- EvaluateKeywords(keys[1..], es[1..], ctx, rt);
      Ok([(keys[0].value, v)] + vs)
  }

  /** `FormulaEngine.validate_formula`: every name is a helper or an available field. */
  predicate KnownNames(f: Formula, available: set<string>) {
    f.Parsed? && Names(f.tree) <= ALLOWED_FUNCTIONS + available
  }

  /** `FormulaEngine.evaluate`. */
  function Run(f: Formula, ctx: Context, rt: Runtime): Outcome<Value> {
    if f.Broken? then Raise(InvalidSyntax)
    else
      var v :- Evaluate(f.tree, WrapContext(ctx), rt);
      Ok(Unwrap(v))
  }

  // ---------------------------------------------------------------------------------------------
  // The frame: a formula sees only the names it mentions
  // ---------------------------------------------------------------------------------------------

  predicate AgreeOn(names: set<string>, c: Context, d: Context) {
    forall n | n in names :: (n in c <==> n in d) && (n in c && n in d ==> c[n] == d[n])
  }

  lemma {:induction false} EvaluateFrame(e: Expr, c: Context, d: Context, rt: Runtime)
    requires AgreeOn(Names(e), c, d)
    ensures Evaluate(e, c, rt) == Evaluate(e, d, rt)
    decreases e, 1
  {
    match e {
      case Const(_) =>
      case Name(id) =>
      case Attribute(target, _) => EvaluateFrame(target, c, d, rt);
      case ListExpr(elts) => EvaluateAllFrame(elts, c, d, rt);
      case TupleExpr(elts) => EvaluateAllFrame(elts, c, d, rt);
      case Boolean(_, operands) => EvaluateAllFrame(operands, c, d, rt);
      case Compare(_, _, _) => EvaluateCompareFrame(e, c, d, rt);
      case Conditional(test, body, orelse) =>
        EvaluateFrame(test, c, d, rt);
        EvaluateFrame(body, c, d, rt);
        EvaluateFrame(orelse, c, d, rt);
      case Call(_, _, _, _) => EvaluateCallFrame(e, c, d, rt);
      case Unary(_, operand) => EvaluateFrame(operand, c, d, rt);
      case Binary(_, lhs, rhs) =>
        EvaluateFrame(lhs, c, d, rt);
        EvaluateFrame(rhs, c, d, rt);
      case Unsupported(_) =>
    }
  }

  lemma {:induction false} EvaluateCompareFrame(e: Expr, c: Context, d: Context, rt: Runtime)
    requires e.Compare? && AgreeOn(Names(e), c, d)
    ensures Evaluate(e, c, rt) == Evaluate(e, d, rt)
    decreases e, 0
  {
    EvaluateFrame(e.left, c, d, rt);
    var l := Evaluate(e.left, c, rt);
    if l.Ok? {
      EvaluateChainFrame(l.value, e.ops, e.comparators, c, d, rt);
    }
  }

  lemma {:induction false} EvaluateCallFrame(e: Expr, c: Context, d: Context, rt: Runtime)
    requires e.Call? && AgreeOn(Names(e), c, d)
    ensures Evaluate(e, c, rt) == Evaluate(e, d, rt)
    decreases e, 0
  {
    EvaluateFrame(e.func, c, d, rt);
    EvaluateAllFrame(e.args, c, d, rt);
    EvaluateKeywordsFrame(e.keywords, e.keywordArgs, c, d, rt);
  }

  lemma {:induction false} EvaluateAllFrame(es: seq<Expr>, c: Context, d: Context, rt: Runtime)
    requires AgreeOn(NamesOf(es), c, d)
    ensures EvaluateAll(es, c, rt) == EvaluateAll(es, d, rt)
    decreases es, 0
  {
    if es != [] {
      EvaluateFrame(es[0], c, d, rt);
      EvaluateAllFrame(es[1..], c, d, rt);
    }
  }

  lemma {:induction false} EvaluateChainFrame(
    left: Value, ops: seq<CmpOp>, es: seq<Expr>, c: Context, d: Context, rt: Runtime)
    requires AgreeOn(NamesOf(es), c, d)
    ensures EvaluateChain(left, ops, es, c, rt) == EvaluateChain(left, ops, es, d, rt)
    decreases es, 0
  {
    if es != [] && ops != [] {
      EvaluateFrame(es[0], c, d, rt);
      var r := Evaluate(es[0], c, rt);
      if r.Ok? {
        EvaluateChainFrame(r.value, ops[1..], es[1..], c, d, rt);
      }
    }
  }

  lemma {:induction false} EvaluateKeywordsFrame(
    keys: seq<Option<string>>, es: seq<Expr>, c: Context, d: Context, rt: Runtime)
    requires AgreeOn(NamesOf(es), c, d)
    ensures EvaluateKeywords(keys, es, c, rt) == EvaluateKeywords(keys, es, d, rt)
    decreases es, 0
  {
    if es != [] && keys != [] {
      EvaluateFrame(es[0], c, d, rt);
      EvaluateKeywordsFrame(keys[1..], es[1..], c, d, rt);
    }
  }

  /** Two contexts that agree on a formula's names give it the same outcome. */
  lemma RunFrame(f: Formula, c: Context, d: Context, rt: Runtime)
    requires f.Parsed? ==> AgreeOn(Names(f.tree), c, d)
    ensures Run(f, c, rt) == Run(f, d, rt)
  {
    if f.Parsed? {
      EvaluateFrame(f.tree, WrapContext(c), WrapContext(d), rt);
    }
  }

  // ---------------------------------------------------------------------------------------------
  // Unknown identifiers
  // ---------------------------------------------------------------------------------------------

  predicate Bound(names: set<string>, ctx: Context) {
    names <= ctx.Keys + ALLOWED_FUNCTIONS
  }

  predicate NoUnknown<T>(r: Outcome<T>) {
    r.Raise? ==> !r.error.UnknownIdentifier? && !r.error.UnknownReference?
  }

  lemma {:induction false} BoundNeverUnknown(e: Expr, ctx: Context, rt: Runtime)
    requires Bound(Names(e), ctx)
    ensures NoUnknown(Evaluate(e, ctx, rt))
    decreases e, 1
  {
    match e {
      case Const(_) =>
      case Name(id) =>
      case Attribute(target, _) => BoundNeverUnknown(target, ctx, rt);
      case ListExpr(elts) => BoundAllNeverUnknown(elts, ctx, rt);
      case TupleExpr(elts) => BoundAllNeverUnknown(elts, ctx, rt);
      case Boolean(_, operands) => BoundAllNeverUnknown(operands, ctx, rt);
      case Compare(left, ops, comparators) =>
        BoundNeverUnknown(left, ctx, rt);
        var l := Evaluate(left, ctx, rt);
        if l.Ok? {
          BoundChainNeverUnknown(l.value, ops, comparators, ctx, rt);
        }
      case Conditional(test, body, orelse) =>
        BoundNeverUnknown(test, ctx, rt);
        BoundNeverUnknown(body, ctx, rt);
        BoundNeverUnknown(orelse, ctx, rt);
      case Call(func, args, keywords, keywordArgs) =>
        BoundNeverUnknown(func, ctx, rt);
        BoundAllNeverUnknown(args, ctx, rt);
        BoundKeywordsNeverUnknown(keywords, keywordArgs, ctx, rt);
      case Unary(_, operand) => BoundNeverUnknown(operand, ctx, rt);
      case Binary(_, lhs, rhs) =>
        BoundNeverUnknown(lhs, ctx, rt);
        BoundNeverUnknown(rhs, ctx, rt);
      case Unsupported(_) =>
    }
  }

  lemma {:induction false} BoundAllNeverUnknown(es: seq<Expr>, ctx: Context, rt: Runtime)
    requires Bound(NamesOf(es), ctx)
    ensures NoUnknown(EvaluateAll(es, ctx, rt))
    decreases es, 0
  {
    if es != [] {
      BoundNeverUnknown(es[0], ctx, rt);
      BoundAllNeverUnknown(es[1..], ctx, rt);
    }
  }

  lemma {:induction false} BoundChainNeverUnknown(
    left: Value, ops: seq<CmpOp>, es: seq<Expr>, ctx: Context, rt: Runtime)
    requires Bound(NamesOf(es), ctx)
    ensures NoUnknown(EvaluateChain(left, ops, es, ctx, rt))
    decreases es, 0
  {
    if es != [] && ops != [] {
      BoundNeverUnknown(es[0], ctx, rt);
      var r := Evaluate(es[0], ctx, rt);
      if r.Ok? {
        BoundChainNeverUnknown(r.value, ops[1..], es[1..], ctx, rt);
      }
    }
  }

  lemma {:induction false} BoundKeywordsNeverUnknown(
    keys: seq<Option<string>>, es: seq<Expr>, ctx: Context, rt: Runtime)
    requires Bound(NamesOf(es), ctx)
    ensures NoUnknown(EvaluateKeywords(keys, es, ctx, rt))
    decreases es, 0
  {
    if es != [] && keys != [] {
      BoundNeverUnknown(es[0], ctx, rt);
      BoundKeywordsNeverUnknown(keys[1..], es[1..], ctx, rt);
    }
  }

  // ---------------------------------------------------------------------------------------------
  // What the operators mean
  // ---------------------------------------------------------------------------------------------

  /** The first argument that is not null, or null when there is none. */
  lemma {:induction false} CoalesceIsFirst(args: seq<Value>)
    ensures Coalesce(args).Null? <==> forall i | 0 <= i < |args| :: args[i].Null?
    ensures !Coalesce(args).Null? ==>
              exists k :: 0 <= k < |args| && args[k] == Coalesce(args) && forall i | 0 <= i < k :: args[i].Null?
  {
    if args != [] && args[0].Null? {
      CoalesceIsFirst(args[1..]);
      assert forall i | 0 < i < |args| :: args[i] == args[1..][i - 1];
      if !Coalesce(args).Null? {
        var k :| 0 <= k < |args[1..]| && args[1..][k] == Coalesce(args) && forall i | 0 <= i < k :: args[1..][i].Null?;
        assert args[k + 1] == Coalesce(args);
      }
    }
  }

  lemma ProductStep(y: real, q: real)
    ensures Product(y, q + 1.0) == Product(y, q) + y
  {
  }

  lemma {:induction false} IntegerProduct(r: int, q: int)
    ensures Product(r as real, q as real) == (q * r) as real
    decreases if q < 0 then -q else q
  {
    if q > 0 {
      IntegerProduct(r, q - 1);
      ProductStep(r as real, (q - 1) as real);
      assert q * r == (q - 1) * r + r;
    } else if q < 0 {
      IntegerProduct(r, q + 1);
      ProductStep(r as real, q as real);
      assert (q + 1) * r == q * r + r;
    }
  }

  lemma ProductMinus(y: real, a: real, b: real)
    ensures Product(y, a - b) == Product(y, a) - Product(y, b)
  {
  }

  lemma ProductOfFraction(y: real, t: real)
    requires 0.0 <= t < 1.0
    ensures y > 0.0 ==> 0.0 <= Product(y, t) < y
    ensures y < 0.0 ==> y < Product(y, t) <= 0.0
  {
  }

  lemma FloorBounds(x: real, y: real, q: int)
    requires y != 0.0 && q == (x / y).Floor
    ensures y > 0.0 ==> 0.0 <= x - Product(y, q as real) < y
    ensures y < 0.0 ==> y < x - Product(y, q as real) <= 0.0
  {
    var exact := x / y;
    QuotientTimesDivisor(x, y, exact);
    assert Product(y, exact) == Product(exact, y);
    ProductMinus(y, exact, q as real);
    ProductOfFraction(y, exact - q as real);
  }

  /** Python's modulo: the remainder has the divisor's sign, and the rest is a multiple of the divisor. */
  lemma ModuloTakesDivisorSign(l: int, r: int, rt: Runtime) returns (q: int, m: int)
    requires r != 0
    ensures BinaryValues(Mod, Int(l), Int(r), rt) == Ok(Int(m))
    ensures l == q * r + m && (0 <= m < r || r < m <= 0)
  {
    var x, y := l as real, r as real;
    q := (x / y).Floor;
    m := l - q * r;
    IntegerProduct(r, q);
    FloorBounds(x, y, q);
    assert x - Product(y, q as real) == m as real;
    assert BinaryValues(Mod, Int(l), Int(r), rt) == Ok(Numeric(Int(l), Int(r), m as real));
  }

  /** Integer arithmetic is exact, so subtraction undoes addition. */
  lemma SubtractionUndoesAddition(m: int, n: int, rt: Runtime)
    ensures var sum := BinaryValues(Add, Int(m), Int(n), rt);
            sum.Ok? && BinaryValues(Sub, sum.value, Int(n), rt) == Ok(Int(m))
  {
    assert (m as real + n as real).Floor == m + n;
    assert BinaryValues(Add, Int(m), Int(n), rt) == Ok(Int(m + n));
    assert ((m + n) as real - n as real).Floor == m;
  }

  lemma QuotientTimesDivisor(x: real, y: real, q: real)
    requires y != 0.0 && q == x / y
    ensures Product(q, y) == x
  {
  }

  /** When an operator reports a zero division: a zero divisor under `/`, whatever the left operand is; a zero
      divisor under `%` between numbers; or an operand of another type whose own operator reports it. */
  lemma ZeroDivisionExactlyWhen(op: BinOp, l: Value, r: Value, rt: Runtime)
    ensures BinaryValues(op, l, r, rt) == Raise(ZeroDivision) <==>
              if Number(l).Some? && Number(r).Some? then (op.Div? || op.Mod?) && Number(r) == Some(0.0)
              else
                || (op.Div? && Number(r) == Some(0.0))
                || (&& !op.OtherBinary? && !l.Null? && (r.Null? ==> op.Mod? && l.Str?) && !(op.Add? && l.Str? && r.Str?)
                    && rt.binary(op, l, r) == ZeroFault)
  {
  }

  /** The value on the left of link `i` of a comparison chain. */
  function LeftOf(first: Value, vs: seq<Value>, i: nat): Value
    requires i < |vs|
  {
    if i == 0 then first else vs[i - 1]
  }

  predicate LinkHolds(op: CmpOp, l: Value, r: Value, rt: Runtime) {
    CompareValues(op, l, r, rt) == Ok(true)
  }

  predicate AllLinks(first: Value, ops: seq<CmpOp>, vs: seq<Value>, rt: Runtime)
    requires |ops| == |vs|
  {
    forall i | 0 <= i < |vs| :: LinkHolds(ops[i], LeftOf(first, vs, i), vs[i], rt)
  }

  lemma AllLinksUnfold(first: Value, ops: seq<CmpOp>, vs: seq<Value>, rt: Runtime)
    requires |ops| == |vs| > 0
    ensures AllLinks(first, ops, vs, rt) <==>
              LinkHolds(ops[0], first, vs[0], rt) && AllLinks(vs[0], ops[1..], vs[1..], rt)
  {
    var rest, more := vs[1..], ops[1..];
    forall i | 0 <= i < |rest|
      ensures rest[i] == vs[i + 1] && more[i] == ops[i + 1] && LeftOf(vs[0], rest, i) == LeftOf(first, vs, i + 1)
    {
    }
    if AllLinks(vs[0], more, rest, rt) && LinkHolds(ops[0], first, vs[0], rt) {
      forall i | 0 <= i < |vs|
        ensures LinkHolds(ops[i], LeftOf(first, vs, i), vs[i], rt)
      {
        if i > 0 {
          assert LinkHolds(more[i - 1], LeftOf(vs[0], rest, i - 1), rest[i - 1], rt);
        }
      }
    }
  }

  lemma {:induction false} ChainMeansAllLinks(
    first: Value, ops: seq<CmpOp>, es: seq<Expr>, vs: seq<Value>, ctx: Context, rt: Runtime)
    requires |ops| == |es| == |vs| && EvaluateAll(es, ctx, rt) == Ok(vs)
    ensures EvaluateChain(first, ops, es, ctx, rt) == Ok(true) <==> AllLinks(first, ops, vs, rt)
    decreases |es|
  {
    if es != [] {
      var rest := EvaluateAll(es[1..], ctx, rt).value;
      assert vs == [vs[0]] + rest;
      assert vs[1..] == rest;
      ChainMeansAllLinks(vs[0], ops[1..], es[1..], rest, ctx, rt);
      AllLinksUnfold(first, ops, vs, rt);
    }
  }

  /** A comparison holds exactly when every adjacent pair of its operands compares true. */
  lemma ComparisonMeansAllLinks(
    left: Expr, first: Value, ops: seq<CmpOp>, es: seq<Expr>, vs: seq<Value>, ctx: Context, rt: Runtime)
    requires Evaluate(left, ctx, rt) == Ok(first) && EvaluateAll(es, ctx, rt) == Ok(vs) && |ops| == |vs|
    ensures Evaluate(Compare(left, ops, es), ctx, rt) == Ok(Bool(true)) <==> AllLinks(first, ops, vs, rt)
  {
    EvaluateAllLength(es, ctx, rt);
    ChainMeansAllLinks(first, ops, es, vs, ctx, rt);
  }

  lemma {:induction false} EvaluateAllLength(es: seq<Expr>, ctx: Context, rt: Runtime)
    requires EvaluateAll(es, ctx, rt).Ok?
    ensures |EvaluateAll(es, ctx, rt).value| == |es|
  {
    if es != [] {
      EvaluateAllLength(es[1..], ctx, rt);
    }
  }

  lemma EvaluateCons(e: Expr, es: seq<Expr>, v: Value, vs: seq<Value>, ctx: Context, rt: Runtime)
    requires Evaluate(e, ctx, rt) == Ok(v) && EvaluateAll(es, ctx, rt) == Ok(vs)
    ensures EvaluateAll([e] + es, ctx, rt) == Ok([v] + vs)
  {
    assert ([e] + es)[1..] == es;
  }

  lemma EvaluateThree(a: Expr, b: Expr, c: Expr, x: Value, y: Value, z: Value, ctx: Context, rt: Runtime)
    requires Evaluate(a, ctx, rt) == Ok(x) && Evaluate(b, ctx, rt) == Ok(y) && Evaluate(c, ctx, rt) == Ok(z)
    ensures EvaluateAll([a, b, c], ctx, rt) == Ok([x, y, z])
  {
    assert [c] + [] == [c] && [z] + [] == [z];
    EvaluateCons(c, [], z, [], ctx, rt);
    assert [b] + [c] == [b, c] && [y] + [z] == [y, z];
    EvaluateCons(b, [c], y, [z], ctx, rt);
    assert [a] + [b, c] == [a, b, c] && [x] + [y, z] == [x, y, z];
    EvaluateCons(a, [b, c], x, [y, z], ctx, rt);
  }

  /** The helper that `if(...)` is rewritten to agrees with the conditional expression whenever all three
      arguments have a value; it differs only in evaluating both branches. */
  lemma IffAgreesWithConditional(test: Expr, body: Expr, orelse: Expr, ctx: Context, rt: Runtime)
    requires "iff" !in ctx
    requires Evaluate(test, ctx, rt).Ok? && Evaluate(body, ctx, rt).Ok? && Evaluate(orelse, ctx, rt).Ok?
    ensures Evaluate(Call(Name("iff"), [test, body, orelse], [], []), ctx, rt)
         == Evaluate(Conditional(test, body, orelse), ctx, rt)
  {
    var t, b, o := Evaluate(test, ctx, rt).value, Evaluate(body, ctx, rt).value, Evaluate(orelse, ctx, rt).value;
    EvaluateThree(test, body, orelse, t, b, o, ctx, rt);
    assert Evaluate(Name("iff"), ctx, rt) == Ok(Func("iff"));
    assert Apply(Func("iff"), [t, b, o], [], rt) == Ok(if Truthy(t) then b else o);
  }
}
