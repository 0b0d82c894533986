/** What formulas mean, in the terms of their authors: arithmetic on numbers, truth of values, names, attributes
    and helper calls. Each law is about the expression and the values of its operands. */
module FormulaMeaning {
  import opened Basics
  import opened Formulas

  // ---------------------------------------------------------------------------------------------
  // Arithmetic
  // ---------------------------------------------------------------------------------------------

  /** The whole number that a value stands for: booleans count as 0 and 1, and a float may be whole. */
  ghost predicate IsWhole(v: Value, n: int) {
    match v
    case Bool(b) => n == if b then 1 else 0
    case Int(m) => n == m
    case Real(r) => r == n as real
    case _ => false
  }

  /** Whole numbers in, whole number out; a float operand makes a float. */
  function Whole(n: int, float: bool): Value {
    if float then Real(n as real) else Int(n)
  }

  lemma WholeNumber(v: Value, n: int)
    requires IsWhole(v, n)
    ensures Number(v) == Some(n as real)
  {
  }

  /** `+`, `-` and `*` on whole numbers are those of arithmetic. */
  lemma WholeArithmetic(l: Value, r: Value, m: int, n: int, rt: Runtime)
    requires IsWhole(l, m) && IsWhole(r, n)
    ensures var float := l.Real? || r.Real?;
            && BinaryValues(Add, l, r, rt) == Ok(Whole(m + n, float))
            && BinaryValues(Sub, l, r, rt) == Ok(Whole(m - n, float))
            && BinaryValues(Mult, l, r, rt) == Ok(Whole(m * n, float))
  {
    WholeNumber(l, m);
    WholeNumber(r, n);
    NumericWhole(l, r, m + n, m as real + n as real);
    NumericWhole(l, r, m - n, m as real - n as real);
    IntegerProduct(n, m);
    ProductCommutes(n as real, m as real);
    NumericWhole(l, r, m * n, Product(m as real, n as real));
  }

  lemma ProductCommutes(x: real, y: real)
    ensures Product(x, y) == Product(y, x)
  {
  }

  lemma NumericWhole(l: Value, r: Value, n: int, x: real)
    requires x == n as real
    ensures Numeric(l, r, x) == Whole(n, l.Real? || r.Real?)
  {
  }

  /** `/` always gives a float; a multiple of the divisor gives the quotient exactly. */
  lemma WholeQuotient(l: Value, r: Value, q: int, n: int, rt: Runtime)
    requires IsWhole(l, q * n) && IsWhole(r, n) && n != 0
    ensures BinaryValues(Div, l, r, rt) == Ok(Real(q as real))
  {
    WholeNumber(l, q * n);
    WholeNumber(r, n);
    var x, y := (q * n) as real, n as real;
    IntegerProduct(n, q);
    assert Product(y, q as real) == x;
    QuotientOf(x, y, q as real);
    assert BinaryValues(Div, l, r, rt) == Ok(Real(x / y));
  }

  lemma QuotientOf(x: real, y: real, q: real)
    requires y != 0.0 && Product(y, q) == x
    ensures x / y == q
  {
  }

  /** A float with a few binary digits after the point, which Python holds exactly. */
  function Fraction(n: int): Value {
    Real(n as real / 1024.0)
  }

  /** Floats keep their fractions. */
  lemma FractionArithmetic(m: int, n: int, rt: Runtime)
    ensures BinaryValues(Add, Fraction(m), Fraction(n), rt) == Ok(Fraction(m + n))
    ensures BinaryValues(Sub, Fraction(m), Fraction(n), rt) == Ok(Fraction(m - n))
    ensures BinaryValues(Mult, Fraction(m), Int(n), rt) == Ok(Fraction(m * n))
    ensures n != 0 ==> BinaryValues(Div, Fraction(m * n), Int(n), rt) == Ok(Fraction(m))
  {
    FractionProduct(m, n);
    if n != 0 {
      QuotientOf((m * n) as real / 1024.0, n as real, m as real / 1024.0);
    }
  }

  lemma FractionProduct(m: int, n: int)
    ensures Product(m as real / 1024.0, n as real) == (m * n) as real / 1024.0
    ensures Product(n as real, m as real / 1024.0) == (m * n) as real / 1024.0
  {
    IntegerProduct(m, n);
    ProductCommutes(m as real, n as real);
    ProductScales(m as real, n as real);
    ProductCommutes(m as real / 1024.0, n as real);
  }

  lemma ProductScales(x: real, y: real)
    ensures Product(x / 1024.0, y) == Product(x, y) / 1024.0
  {
  }

  /** `%` on whole numbers: the remainder has the divisor's sign and the rest is a multiple of the divisor. */
  lemma WholeRemainder(m: int, n: int, rt: Runtime) returns (q: int, rest: int)
    requires n != 0
    ensures BinaryValues(Mod, Int(m), Int(n), rt) == Ok(Int(rest))
    ensures m == q * n + rest && (0 <= rest < n || n < rest <= 0)
  {
    q, rest := ModuloTakesDivisorSign(m, n, rt);
  }

  /** A formula's arithmetic is that of its operands' values, left operand first. */
  lemma BinaryMeans(op: BinOp, l: Expr, r: Expr, ctx: Context, rt: Runtime)
    ensures Evaluate(l, ctx, rt).Raise? ==> Evaluate(Binary(op, l, r), ctx, rt) == Evaluate(l, ctx, rt)
    ensures Evaluate(l, ctx, rt).Ok? && Evaluate(r, ctx, rt).Raise? ==>
              Evaluate(Binary(op, l, r), ctx, rt) == Evaluate(r, ctx, rt)
    ensures Evaluate(l, ctx, rt).Ok? && Evaluate(r, ctx, rt).Ok? ==>
              Evaluate(Binary(op, l, r), ctx, rt)
              == BinaryValues(op, Evaluate(l, ctx, rt).value, Evaluate(r, ctx, rt).value, rt)
  {
  }

  /** The arithmetic of a formula over subexpressions that are whole numbers. */
  lemma ArithmeticMeans(l: Expr, r: Expr, m: int, n: int, ctx: Context, rt: Runtime)
    requires Evaluate(l, ctx, rt) == Ok(Int(m)) && Evaluate(r, ctx, rt) == Ok(Int(n))
    ensures Evaluate(Binary(Add, l, r), ctx, rt) == Ok(Int(m + n))
    ensures Evaluate(Binary(Sub, l, r), ctx, rt) == Ok(Int(m - n))
    ensures Evaluate(Binary(Mult, l, r), ctx, rt) == Ok(Int(m * n))
    ensures forall q | n != 0 && m == q * n :: Evaluate(Binary(Div, l, r), ctx, rt) == Ok(Real(q as real))
    ensures n == 0 ==> Evaluate(Binary(Div, l, r), ctx, rt) == Raise(ZeroDivision)
                       && Evaluate(Binary(Mod, l, r), ctx, rt) == Raise(ZeroDivision)
  {
    BinaryMeans(Add, l, r, ctx, rt);
    BinaryMeans(Sub, l, r, ctx, rt);
    BinaryMeans(Mult, l, r, ctx, rt);
    BinaryMeans(Div, l, r, ctx, rt);
    BinaryMeans(Mod, l, r, ctx, rt);
    WholeArithmetic(Int(m), Int(n), m, n, rt);
    forall q | n != 0 && m == q * n
      ensures BinaryValues(Div, Int(m), Int(n), rt) == Ok(Real(q as real))
    {
      WholeQuotient(Int(m), Int(n), q, n, rt);
    }
  }

  /** Texts are joined by `+`; a missing operand is a type error in every arithmetic operation. */
  lemma OtherOperands(op: BinOp, l: Value, r: Value, rt: Runtime)
    requires !op.OtherBinary?
    ensures l.Str? && r.Str? && op.Add? ==> BinaryValues(op, l, r, rt) == Ok(Str(l.s + r.s))
    ensures l.Null? && !(op.Div? && Number(r) == Some(0.0)) ==> BinaryValues(op, l, r, rt) == Raise(TypeMismatch)
    ensures r.Null? && !(op.Mod? && l.Str?) ==> BinaryValues(op, l, r, rt) == Raise(TypeMismatch)
    ensures (Number(l).None? || Number(r).None?) && !l.Null? && !r.Null? && !(op.Add? && l.Str? && r.Str?)
            && !(op.Div? && Number(r) == Some(0.0)) ==>
              BinaryValues(op, l, r, rt) == Lift(rt.binary(op, l, r))
  {
  }

  /** Operators the evaluator does not know: arithmetic is refused, a comparison holds. */
  lemma OtherOperators(l: Value, r: Value, rt: Runtime)
    ensures BinaryValues(OtherBinary, l, r, rt) == Raise(UnsupportedOperator)
    ensures CompareValues(OtherCompare, l, r, rt) == Ok(true)
  {
  }

  /** A foreign operator or helper reports a type error, a zero division, an unknown unit, or an exception that
      nobody catches. */
  lemma ForeignMeans<T>(v: T)
    ensures Lift(Done(v)) == Ok(v)
    ensures Lift<T>(TypeFault) == Raise(TypeMismatch) && Lift<T>(ZeroFault) == Raise(ZeroDivision)
    ensures Lift<T>(UnitFault) == Raise(BadUnit) && Lift<T>(OtherFault) == Raise(Uncaught)
  {
  }

  /** Signs: a boolean becomes a number, anything that is no number is a type error. */
  lemma SignMeans(operand: Expr, v: Value, n: int, ctx: Context, rt: Runtime)
    requires Evaluate(operand, ctx, rt) == Ok(v) && IsWhole(v, n)
    ensures Evaluate(Unary(USub, operand), ctx, rt) == Ok(Whole(-n, v.Real?))
    ensures Evaluate(Unary(UAdd, operand), ctx, rt) == Ok(Whole(n, v.Real?))
  {
  }

  lemma SignOfFraction(operand: Expr, x: real, ctx: Context, rt: Runtime)
    requires Evaluate(operand, ctx, rt) == Ok(Real(x))
    ensures Evaluate(Unary(USub, operand), ctx, rt) == Ok(Real(-x)) && Evaluate(Unary(UAdd, operand), ctx, rt) == Ok(Real(x))
  {
  }

  lemma SignFails(op: UnOp, operand: Expr, ctx: Context, rt: Runtime)
    ensures Evaluate(operand, ctx, rt).Raise? ==> Evaluate(Unary(op, operand), ctx, rt) == Evaluate(operand, ctx, rt)
    ensures Evaluate(operand, ctx, rt).Ok? && op.OtherUnary? ==>
              Evaluate(Unary(op, operand), ctx, rt) == Raise(UnsupportedOperator)
    ensures Evaluate(operand, ctx, rt).Ok? && !op.OtherUnary? && Number(Evaluate(operand, ctx, rt).value).None? ==>
              Evaluate(Unary(op, operand), ctx, rt) == Raise(TypeMismatch)
  {
  }

  // ---------------------------------------------------------------------------------------------
  // Comparison
  // ---------------------------------------------------------------------------------------------

  /** The real number that a value stands for. */
  ghost predicate IsNumber(v: Value, x: real) {
    match v
    case Bool(b) => x == if b then 1.0 else 0.0
    case Int(n) => x == n as real
    case Real(r) => x == r
    case _ => false
  }

  /** Numbers compare as numbers, whatever their types: `True == 1` and `2 == 2.0`. */
  lemma NumberComparison(l: Value, r: Value, x: real, y: real, rt: Runtime)
    requires IsNumber(l, x) && IsNumber(r, y)
    ensures CompareValues(Eq, l, r, rt) == Ok(x == y) && CompareValues(NotEq, l, r, rt) == Ok(x != y)
    ensures CompareValues(Lt, l, r, rt) == Ok(x < y) && CompareValues(LtE, l, r, rt) == Ok(x <= y)
    ensures CompareValues(Gt, l, r, rt) == Ok(x > y) && CompareValues(GtE, l, r, rt) == Ok(x >= y)
  {
  }

  /** Other comparisons: texts and missing values are equal when they are the same, and never to a number;
      ordering against a missing value is a type error; anything else is up to Python. */
  lemma OtherComparison(op: CmpOp, l: Value, r: Value, rt: Runtime)
    requires Number(l).None? || Number(r).None?
    ensures Scalar(l) && Scalar(r) && op.Eq? ==> CompareValues(op, l, r, rt) == Ok(l == r)
    ensures Scalar(l) && Scalar(r) && op.NotEq? ==> CompareValues(op, l, r, rt) == Ok(l != r)
    ensures !(Scalar(l) && Scalar(r)) && op.Eq? ==> CompareValues(op, l, r, rt) == Ok(rt.same(l, r))
    ensures !(Scalar(l) && Scalar(r)) && op.NotEq? ==> CompareValues(op, l, r, rt) == Ok(!rt.same(l, r))
    ensures (op.Lt? || op.LtE? || op.Gt? || op.GtE?) && (l.Null? || r.Null?) ==>
              CompareValues(op, l, r, rt) == Raise(TypeMismatch)
    ensures (op.Lt? || op.LtE? || op.Gt? || op.GtE?) && !l.Null? && !r.Null? ==>
              CompareValues(op, l, r, rt) == Lift(rt.less(op, l, r))
  {
  }

  /** A chain stops at its first false link: what comes after is not evaluated, so it may raise. */
  lemma {:induction false} ChainStopsAtFalse(
    first: Value, ops: seq<CmpOp>, es: seq<Expr>, vs: seq<Value>, ctx: Context, rt: Runtime)
    requires 0 < |vs| <= |es| && |vs| <= |ops| && EvaluateAll(es[..|vs|], ctx, rt) == Ok(vs)
    requires AllLinks(first, ops[..|vs| - 1], vs[..|vs| - 1], rt)
    requires CompareValues(ops[|vs| - 1], LeftOf(first, vs, |vs| - 1), vs[|vs| - 1], rt) == Ok(false)
    ensures EvaluateChain(first, ops, es, ctx, rt) == Ok(false)
    decreases |vs|
  {
    var k := |vs|;
    assert es[..k][0] == es[0] && es[..k][1..] == es[1..][..k - 1];
    assert vs == [vs[0]] + vs[1..];
    if k > 1 {
      AllLinksUnfold(first, ops[..k - 1], vs[..k - 1], rt);
      assert ops[..k - 1][1..] == ops[1..][..k - 2] && vs[..k - 1][1..] == vs[1..][..k - 2];
      assert ops[..k - 1][0] == ops[0] && vs[..k - 1][0] == vs[0];
      ChainStopsAtFalse(vs[0], ops[1..], es[1..], vs[1..], ctx, rt);
    }
  }

  /** The left operand is evaluated first, and its error ends the comparison. */
  lemma ComparisonFails(left: Expr, ops: seq<CmpOp>, es: seq<Expr>, ctx: Context, rt: Runtime)
    ensures Evaluate(left, ctx, rt).Raise? ==>
              Evaluate(Compare(left, ops, es), ctx, rt) == Raise(Evaluate(left, ctx, rt).error)
    ensures Evaluate(left, ctx, rt).Ok? ==>
              var chain := EvaluateChain(Evaluate(left, ctx, rt).value, ops, es, ctx, rt);
              Evaluate(Compare(left, ops, es), ctx, rt) == if chain.Ok? then Ok(Bool(chain.value)) else Raise(chain.error)
  {
  }

  // ---------------------------------------------------------------------------------------------
  // Truth
  // ---------------------------------------------------------------------------------------------

  /** Python's falsy values among those of a formula; an attribute view is an object and therefore true. */
  const FALSY: set<Value> := {Null, Bool(false), Int(0), Real(0.0), Str(""), List([]), Tuple([]), Dict(map[])}

  lemma TruthyUnlessFalsy(v: Value)
    ensures Truthy(v) <==> v !in FALSY
  {
  }

  lemma AllTruthy(vs: seq<Value>)
    ensures AllTrue(vs) <==> forall v | v in vs :: v !in FALSY
    ensures AnyTrue(vs) <==> exists v | v in vs :: v !in FALSY
  {
    forall i | 0 <= i < |vs|
      ensures vs[i] in vs && (Truthy(vs[i]) <==> vs[i] !in FALSY)
    {
      TruthyUnlessFalsy(vs[i]);
    }
    if v :| v in vs && v !in FALSY {
      var i :| 0 <= i < |vs| && vs[i] == v;
    }
  }

  /** `and` and `or` evaluate all operands and give a boolean. */
  lemma BooleanMeans(operands: seq<Expr>, vs: seq<Value>, ctx: Context, rt: Runtime)
    requires EvaluateAll(operands, ctx, rt) == Ok(vs)
    ensures Evaluate(Boolean(And, operands), ctx, rt) == Ok(Bool(forall v | v in vs :: v !in FALSY))
    ensures Evaluate(Boolean(Or, operands), ctx, rt) == Ok(Bool(exists v | v in vs :: v !in FALSY))
  {
    AllTruthy(vs);
    assert Evaluate(Boolean(And, operands), ctx, rt) == Ok(Bool(AllTrue(vs)));
    assert Evaluate(Boolean(Or, operands), ctx, rt) == Ok(Bool(AnyTrue(vs)));
  }

  lemma BooleanFails(op: BoolOp, operands: seq<Expr>, ctx: Context, rt: Runtime)
    requires EvaluateAll(operands, ctx, rt).Raise?
    ensures Evaluate(Boolean(op, operands), ctx, rt) == Raise(EvaluateAll(operands, ctx, rt).error)
  {
  }

  /** The conditional expression evaluates its test and then the chosen branch, and only that one. */
  lemma ConditionalMeans(test: Expr, body: Expr, orelse: Expr, ctx: Context, rt: Runtime)
    ensures var t := Evaluate(test, ctx, rt);
            Evaluate(Conditional(test, body, orelse), ctx, rt)
            == if t.Raise? then t else if t.value in FALSY then Evaluate(orelse, ctx, rt) else Evaluate(body, ctx, rt)
  {
    if Evaluate(test, ctx, rt).Ok? {
      TruthyUnlessFalsy(Evaluate(test, ctx, rt).value);
    }
  }

  // ---------------------------------------------------------------------------------------------
  // Lists, names and attributes
  // ---------------------------------------------------------------------------------------------

  /** Elements are evaluated in order and keep their places. */
  lemma {:induction false} ElementsMean(es: seq<Expr>, vs: seq<Value>, ctx: Context, rt: Runtime)
    ensures EvaluateAll(es, ctx, rt) == Ok(vs) <==>
              |vs| == |es| && forall i | 0 <= i < |es| :: Evaluate(es[i], ctx, rt) == Ok(vs[i])
  {
    if es != [] {
      if |vs| == |es| && forall i | 0 <= i < |es| :: Evaluate(es[i], ctx, rt) == Ok(vs[i]) {
        ElementsMean(es[1..], vs[1..], ctx, rt);
        assert vs == [vs[0]] + vs[1..];
      }
      if EvaluateAll(es, ctx, rt) == Ok(vs) {
        var rest := EvaluateAll(es[1..], ctx, rt).value;
        assert vs == [vs[0]] + rest;
        ElementsMean(es[1..], rest, ctx, rt);
        assert forall i | 0 < i < |es| :: es[i] == es[1..][i - 1] && vs[i] == rest[i - 1];
      }
    }
  }

  /** The first element that raises decides the error. */
  lemma {:induction false} FirstErrorWins(es: seq<Expr>, k: nat, ctx: Context, rt: Runtime)
    requires k < |es| && Evaluate(es[k], ctx, rt).Raise?
    requires forall i | 0 <= i < k :: Evaluate(es[i], ctx, rt).Ok?
    ensures EvaluateAll(es, ctx, rt) == Raise(Evaluate(es[k], ctx, rt).error)
  {
    if k > 0 {
      FirstErrorWins(es[1..], k - 1, ctx, rt);
    }
  }

  lemma DisplayMeans(elts: seq<Expr>, vs: seq<Value>, ctx: Context, rt: Runtime)
    requires EvaluateAll(elts, ctx, rt) == Ok(vs)
    ensures Evaluate(ListExpr(elts), ctx, rt) == Ok(List(vs)) && Evaluate(TupleExpr(elts), ctx, rt) == Ok(Tuple(vs))
  {
  }

  lemma DisplayFails(elts: seq<Expr>, ctx: Context, rt: Runtime)
    requires EvaluateAll(elts, ctx, rt).Raise?
    ensures Evaluate(ListExpr(elts), ctx, rt) == Raise(EvaluateAll(elts, ctx, rt).error)
    ensures Evaluate(TupleExpr(elts), ctx, rt) == Raise(EvaluateAll(elts, ctx, rt).error)
  {
  }

  /** No dictionary outside tuples: what a formula sees. */
  predicate Wrapped(v: Value) {
    match v
    case Dict(_) => false
    case View(m) => forall k | k in m :: Wrapped(m[k])
    case List(s) => forall i | 0 <= i < |s| :: Wrapped(s[i])
    case _ => true
  }

  lemma {:induction false} WrapHidesDictionaries(v: Value)
    requires Plain(v)
    ensures Wrapped(Wrap(v))
  {
    match v {
      case Dict(m) =>
        forall k | k in m
          ensures Wrapped(Wrap(m[k]))
        {
          WrapHidesDictionaries(m[k]);
        }
      case List(s) =>
        forall i | 0 <= i < |s|
          ensures Wrapped(Wrap(s[i]))
        {
          WrapHidesDictionaries(s[i]);
        }
      case _ =>
    }
  }

  lemma {:induction false} WrapSettles(v: Value)
    requires Wrapped(v)
    ensures Wrap(v) == v
  {
    match v {
      case List(s) =>
        forall i | 0 <= i < |s|
          ensures Wrap(s[i]) == s[i]
        {
          WrapSettles(s[i]);
        }
      case _ =>
    }
  }

  /** A formula that is just a name gives the stored value of that name; a name that is bound nowhere is
      reported. */
  lemma NameMeans(id: string, ctx: Context, rt: Runtime)
    ensures id in ctx && Plain(ctx[id]) ==> Run(Parsed(Name(id)), ctx, rt) == Ok(ctx[id])
    ensures id !in ctx && id !in ALLOWED_FUNCTIONS ==> Run(Parsed(Name(id)), ctx, rt) == Raise(UnknownIdentifier(id))
    ensures id !in ctx && id in ALLOWED_FUNCTIONS ==> Run(Parsed(Name(id)), ctx, rt) == Ok(Func(id))
  {
    if id in ctx && Plain(ctx[id]) {
      UnwrapWrap(ctx[id]);
    }
  }

  /** A formula that does not compile, and one whose evaluation raises; a constant is its own value. */
  lemma RunMeans(f: Formula, ctx: Context, rt: Runtime)
    ensures f.Broken? ==> Run(f, ctx, rt) == Raise(InvalidSyntax)
    ensures f.Parsed? && Evaluate(f.tree, WrapContext(ctx), rt).Raise? ==>
              Run(f, ctx, rt) == Evaluate(f.tree, WrapContext(ctx), rt)
    ensures f.Parsed? && f.tree.Const? && Scalar(f.tree.value) ==> Run(f, ctx, rt) == Ok(f.tree.value)
    ensures f.Parsed? && f.tree.Unsupported? ==> Run(f, ctx, rt) == Raise(UnsupportedSyntax)
  {
  }

  /** An attribute of a stored record is the record's entry of that name, or nothing when there is none. */
  lemma AttributeMeans(id: string, attr: string, ctx: Context, rt: Runtime)
    requires id in ctx && ctx[id].Dict? && Plain(ctx[id]) && attr != "unwrap" && !("_" <= attr)
    ensures Run(Parsed(Attribute(Name(id), attr)), ctx, rt)
         == Ok(if attr in ctx[id].entries then ctx[id].entries[attr] else Null)
  {
    var m := ctx[id].entries;
    var view := Wrap(ctx[id]);
    assert view.View? && view.entries.Keys == m.Keys;
    assert Evaluate(Name(id), WrapContext(ctx), rt) == Ok(view);
    AttributeOfValue(Name(id), attr, WrapContext(ctx), rt);
    if attr in m {
      WrapHidesDictionaries(m[attr]);
      WrapSettles(Wrap(m[attr]));
      UnwrapWrap(m[attr]);
      assert view.entries[attr] == Wrap(m[attr]);
    }
  }

  /** The same over the value of any target, and when an attribute is refused. */
  lemma AttributeOfValue(target: Expr, attr: string, ctx: Context, rt: Runtime)
    ensures var t := Evaluate(target, ctx, rt);
            var r := Evaluate(Attribute(target, attr), ctx, rt);
            && ("_" <= attr ==> r == Raise(PrivateAttribute))
            && (!("_" <= attr) && t.Raise? ==> r == t)
            && (!("_" <= attr) && t.Ok? && t.value.Dict? ==>
                  r == Ok(if attr in t.value.entries then t.value.entries[attr] else Null))
            && (!("_" <= attr) && t.Ok? && t.value.View? && attr != "unwrap" ==>
                  r == Ok(if attr in t.value.entries then Wrap(t.value.entries[attr]) else Null))
            && (!("_" <= attr) && t.Ok? && !t.value.Dict? && !t.value.View? ==> r == Raise(ScalarAttribute))
  {
  }

  // ---------------------------------------------------------------------------------------------
  // Calls
  // ---------------------------------------------------------------------------------------------

  /** Keyword arguments keep their names and places. */
  lemma {:induction false} KeywordsMean(
    keys: seq<Option<string>>, es: seq<Expr>, vs: seq<Value>, ctx: Context, rt: Runtime)
    requires |keys| == |es| == |vs| && forall i | 0 <= i < |es| :: keys[i].Some? && Evaluate(es[i], ctx, rt) == Ok(vs[i])
    ensures var r := EvaluateKeywords(keys, es, ctx, rt);
            r.Ok? && |r.value| == |es| && forall i | 0 <= i < |es| :: r.value[i] == (keys[i].value, vs[i])
    decreases |es|
  {
    if es != [] {
      KeywordsMean(keys[1..], es[1..], vs[1..], ctx, rt);
    }
  }

  /** A call hands the values of its arguments to the helper, unless a field hides the helper's name. */
  lemma CallMeans(
    id: string, args: seq<Expr>, vs: seq<Value>, keywords: seq<Option<string>>, keywordArgs: seq<Expr>,
    kw: seq<(string, Value)>, ctx: Context, rt: Runtime)
    requires id in ALLOWED_FUNCTIONS && EvaluateAll(args, ctx, rt) == Ok(vs)
    requires EvaluateKeywords(keywords, keywordArgs, ctx, rt) == Ok(kw)
    ensures var r := Evaluate(Call(Name(id), args, keywords, keywordArgs), ctx, rt);
            && (id !in ctx && id == "coalesce" && kw == [] ==> r == Ok(Coalesce(vs)))
            && (id !in ctx && id == "iff" && kw == [] && |vs| == 3 ==>
                  r == Ok(if vs[0] in FALSY then vs[2] else vs[1]))
            && (id !in ctx && !((id == "coalesce" || (id == "iff" && |vs| == 3)) && kw == []) ==>
                  r == Lift(rt.call(id, vs, kw)))
            && (id in ctx && !ctx[id].Func? ==> r == Raise(TypeMismatch))
  {
    if |vs| == 3 {
      TruthyUnlessFalsy(vs[0]);
    }
  }

  /** Only helpers can be called, by their name; the first argument that raises decides the error. */
  lemma CallFails(func: Expr, args: seq<Expr>, keywords: seq<Option<string>>, keywordArgs: seq<Expr>, ctx: Context, rt: Runtime)
    ensures !func.Name? || func.id !in ALLOWED_FUNCTIONS ==>
              Evaluate(Call(func, args, keywords, keywordArgs), ctx, rt) == Raise(NotCallable)
    ensures func.Name? && func.id in ALLOWED_FUNCTIONS && EvaluateAll(args, ctx, rt).Raise? ==>
              Evaluate(Call(func, args, keywords, keywordArgs), ctx, rt) == Raise(EvaluateAll(args, ctx, rt).error)
    ensures keywords != [] && keywordArgs != [] && keywords[0].None? ==>
              EvaluateKeywords(keywords, keywordArgs, ctx, rt) == Raise(KeywordUnpacking)
  {
  }

  // ---------------------------------------------------------------------------------------------
  // The names of a formula
  // ---------------------------------------------------------------------------------------------

  function Children(e: Expr): seq<Expr> {
    match e
    case Const(_) => []
    case Name(_) => []
    case Attribute(target, _) => [target]
    case ListExpr(elts) => elts
    case TupleExpr(elts) => elts
    case Boolean(_, operands) => operands
    case Compare(left, _, comparators) => [left] + comparators
    case Conditional(test, body, orelse) => [test, body, orelse]
    case Call(func, args, _, keywordArgs) => [func] + args + keywordArgs
    case Unary(_, operand) => [operand]
    case Binary(_, lhs, rhs) => [lhs, rhs]
    case Unsupported(children) => children
  }

  function Depth(e: Expr): (d: nat)
    decreases e, 1
  {
    1 + match e
        case Const(_) => 0
        case Name(_) => 0
        case Attribute(target, _) => Depth(target)
        case ListExpr(elts) => DepthOf(elts)
        case TupleExpr(elts) => DepthOf(elts)
        case Boolean(_, operands) => DepthOf(operands)
        case Compare(left, _, comparators) => Depth(left) + DepthOf(comparators)
        case Conditional(test, body, orelse) => Depth(test) + Depth(body) + Depth(orelse)
        case Call(func, args, _, keywordArgs) => Depth(func) + DepthOf(args) + DepthOf(keywordArgs)
        case Unary(_, operand) => Depth(operand)
        case Binary(_, lhs, rhs) => Depth(lhs) + Depth(rhs)
        case Unsupported(children) => DepthOf(children)
  }

  function DepthOf(es: seq<Expr>): (d: nat)
    ensures forall i | 0 <= i < |es| :: Depth(es[i]) <= d
    decreases es, 0
  {
    if es == [] then 0
    else
      assert forall i | 0 < i < |es| :: es[i] == es[1..][i - 1];
      Depth(es[0]) + DepthOf(es[1..])
  }

  lemma ChildrenAreSmaller(e: Expr)
    ensures forall i | 0 <= i < |Children(e)| :: Depth(Children(e)[i]) < Depth(e)
  {
  }

  /** The tree walk of Python's `ast.walk`: the name is that of the node or of one below it. */
  predicate Mentions(e: Expr, n: string)
    decreases Depth(e)
  {
    ChildrenAreSmaller(e);
    (e.Name? && e.id == n) || exists i :: 0 <= i < |Children(e)| && Mentions(Children(e)[i], n)
  }

  lemma {:induction false} NamesOfMembers(es: seq<Expr>, n: string)
    ensures n in NamesOf(es) <==> exists i :: 0 <= i < |es| && n in Names(es[i])
  {
    if es != [] {
      NamesOfMembers(es[1..], n);
      assert forall i | 0 < i < |es| :: es[i] == es[1..][i - 1];
      if n in NamesOf(es[1..]) {
        var i :| 0 <= i < |es[1..]| && n in Names(es[1..][i]);
        assert n in Names(es[i + 1]);
      }
    }
  }

  lemma NamesThroughChildren(e: Expr, n: string)
    ensures n in Names(e) <==> (e.Name? && e.id == n) || n in NamesOf(Children(e))
  {
    NamesOfMembers(Children(e), n);
    match e {
      case Compare(left, _, comparators) =>
        assert Children(e)[1..] == comparators;
      case Conditional(test, body, orelse) =>
        assert [test, body, orelse] == [test] + [body] + [orelse];
        CallNames(test, [body], [orelse], n);
        assert NamesOf([body]) == Names(body) && NamesOf([orelse]) == Names(orelse);
      case Call(func, args, _, keywordArgs) =>
        CallNames(func, args, keywordArgs, n);
      case Binary(_, lhs, rhs) =>
        assert Children(e)[1..] == [rhs] && [rhs][1..] == [];
      case _ =>
    }
  }

  lemma {:induction false} NamesOfConcat(a: seq<Expr>, b: seq<Expr>)
    ensures NamesOf(a + b) == NamesOf(a) + NamesOf(b)
  {
    if a == [] {
      assert a + b == b;
    } else {
      NamesOfConcat(a[1..], b);
      assert (a + b)[1..] == a[1..] + b;
    }
  }

  lemma CallNames(func: Expr, args: seq<Expr>, keywordArgs: seq<Expr>, n: string)
    ensures NamesOf([func] + args + keywordArgs) == Names(func) + NamesOf(args) + NamesOf(keywordArgs)
  {
    NamesOfConcat([func] + args, keywordArgs);
    assert ([func] + args)[1..] == args;
  }

  /** The names of a formula are exactly those that its tree mentions. */
  lemma {:induction false} NamesAreMentioned(e: Expr, n: string)
    ensures n in Names(e) <==> Mentions(e, n)
    decreases Depth(e)
  {
    ChildrenAreSmaller(e);
    forall i | 0 <= i < |Children(e)|
      ensures n in Names(Children(e)[i]) <==> Mentions(Children(e)[i], n)
    {
      NamesAreMentioned(Children(e)[i], n);
    }
    NamesThroughChildren(e, n);
    NamesOfMembers(Children(e), n);
  }

  /** A formula's references are the available names it mentions; it is known when it mentions nothing but helpers
      and available names. */
  lemma ReferencesMean(f: Formula, available: set<string>)
    ensures f.Broken? <==> CollectReferences(f, available).None?
    ensures f.Parsed? ==> forall n ::
              n in CollectReferences(f, available).value <==> n in available && Mentions(f.tree, n)
    ensures KnownNames(f, available) <==>
              f.Parsed? && forall n | Mentions(f.tree, n) :: n in ALLOWED_FUNCTIONS || n in available
  {
    if f.Parsed? {
      forall n
        ensures n in Names(f.tree) <==> Mentions(f.tree, n)
      {
        NamesAreMentioned(f.tree, n);
      }
    }
  }
}
