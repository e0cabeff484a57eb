/**
 The `constructible` policy of boost.di (`policies/constructible.hpp`).

 A policy is a compile-time boolean expression built from `not_`, `and_`,
 `or_`, `always`, `is_bound` and `is_root`, from plain types whose value is a
 constant, and from class templates whose `_` arguments stand for the type
 being injected. Here it is an expression tree evaluated by a recursive
 interpreter against the data the injector passes in.
 */
module Policies {
  import opened Types

  /** A template argument of a policy expression: the placeholder `_` or a
      concrete type. `Type` never carries the `_` type itself; a `_` nested
      inside a concrete type is part of that type's identity and is not
      replaced. */
  datatype Arg = Placeholder | Type(ty: Ty)

  /** The name a dependency is bound under; `NoName` is `no_name`, the
      default of `is_bound`. `Named` never carries the `no_name` type, so
      `is_bound<T>` and `is_bound<T, no_name>` are the same expression. */
  datatype Name = NoName | Named(tag: Ty)

  /** What `TArg::resolve<T, TName, not_resolved>` yields: the resolved
      dependency, or the `not_resolved` sentinel given as its default. */
  datatype Resolution = NotResolved | Resolved(dependency: Ty)

  /** The data a policy is applied to: `TArg::arg::type`, `TArg::is_root` and
      the lookup `TArg::resolve`. */
  datatype Context = Context(arg: Ty, isRoot: bool, resolve: (Ty, Name) -> Resolution)

  /** The boolean value of an instantiated class template, as fixed by the C++
      type system. */
  type TemplateValue = (TemplateName, seq<Ty>) -> bool

  /** A policy expression. `Literal` is a plain type used as a value,
      `Template` a class template that is not a `type_op`, and the remaining
      constructors are the `type_op`s. */
  datatype Expr =
    | Literal(value: bool)
    | Template(template: TemplateName, args: seq<Arg>)
    | Not(operand: Expr)
    | And(operands: seq<Expr>)
    | Or(operands: seq<Expr>)
    | Always(operand: Expr)
    | IsBound(bound: Arg, name: Name)
    | IsRoot
  {
    /** Whether the expression derives from `type_op` and so has its own `apply`. */
    predicate IsTypeOp()
    {
      !Literal? && !Template?
    }
  }

  /** The type an argument stands for once `_` is read as `arg`. */
  function ArgType(a: Arg, arg: Ty): Ty
  {
    match a
    case Placeholder => arg
    case Type(t) => t
  }

  /** `apply_placeholder`: every `_` among the arguments becomes `arg`, every
      other argument stays as it is. */
  function Substitute(args: seq<Arg>, arg: Ty): (ts: seq<Ty>)
    ensures |ts| == |args|
    ensures forall i :: 0 <= i < |args| && args[i] == Placeholder ==> ts[i] == arg
    ensures forall i :: 0 <= i < |args| && args[i] != Placeholder ==> ts[i] == args[i].ty
  {
    seq(|args|, i requires 0 <= i < |args| => ArgType(args[i], arg))
  }

  // ---------------------------------------------------------------------
  // The interpreter
  // ---------------------------------------------------------------------

  /** `apply_impl<T>::apply(data)`: a plain type is its own constant, a
      template is instantiated with `_` replaced by the argument type, and a
      `type_op` is applied through its own `apply`. */
  function Apply(e: Expr, ctx: Context, tv: TemplateValue): bool
    decreases e, 1
  {
    match e
    case Literal(b) => b
    case Template(n, args) => tv(n, Substitute(args, ctx.arg))
    case _ => TypeOpApply(e, ctx, tv)
  }

  /** `T::apply(data)` of each `type_op`. `and_` compares the children's
      values with the same number of `true`s and `or_` with the same number of
      `false`s; every child is evaluated. */
  function TypeOpApply(e: Expr, ctx: Context, tv: TemplateValue): bool
    requires e.IsTypeOp()
    decreases e, 0
  {
    match e
    case Not(x) => !Apply(x, ctx, tv)
    case And(xs) => ApplyEach(xs, ctx, tv) == seq(|xs|, _ => true)
    case Or(xs) => ApplyEach(xs, ctx, tv) != seq(|xs|, _ => false)
    case Always(x) => Apply(x, ctx, tv)
    case IsBound(a, n) => ctx.resolve(ArgType(a, ctx.arg), n) != NotResolved
    case IsRoot => ctx.isRoot
  }

  /** The pack `apply_impl<Ts>::apply(data)...`: one value per child, in order. */
  function ApplyEach(xs: seq<Expr>, ctx: Context, tv: TemplateValue): (bs: seq<bool>)
    ensures |bs| == |xs|
    ensures forall i :: 0 <= i < |xs| ==> bs[i] == Apply(xs[i], ctx, tv)
    decreases xs
  {
    if |xs| == 0 then []
    else [Apply(xs[0], ctx, tv)] + ApplyEach(xs[1..], ctx, tv)
  }

  // ---------------------------------------------------------------------
  // Reference semantics
  // ---------------------------------------------------------------------

  /** Reference definition: the compositional meaning of a policy, with
      `and_` as a universal and `or_` as an existential over the children. */
  ghost function Meaning(e: Expr, ctx: Context, tv: TemplateValue): bool
    decreases e
  {
    match e
    case Literal(b) => b
    case Template(n, args) => tv(n, Substitute(args, ctx.arg))
    case Not(x) => !Meaning(x, ctx, tv)
    case And(xs) => forall i :: 0 <= i < |xs| ==> Meaning(xs[i], ctx, tv)
    case Or(xs) => exists i :: 0 <= i < |xs| && Meaning(xs[i], ctx, tv)
    case Always(x) => Meaning(x, ctx, tv)
    case IsBound(a, n) => ctx.resolve(ArgType(a, ctx.arg), n).Resolved?
    case IsRoot => ctx.isRoot
  }

  /** The interpreter agrees with the reference semantics on every
      expression and context. */
  lemma {:induction false} ApplyIsMeaning(e: Expr, ctx: Context, tv: TemplateValue)
    ensures Apply(e, ctx, tv) == Meaning(e, ctx, tv)
    decreases e
  {
    match e
    case Literal(_) =>
    case Template(_, _) =>
    case Not(x) =>
      ApplyIsMeaning(x, ctx, tv);
    case And(xs) =>
      forall i | 0 <= i < |xs| {
        ApplyIsMeaning(xs[i], ctx, tv);
      }
      var bs := ApplyEach(xs, ctx, tv);
      if forall i :: 0 <= i < |xs| ==> Meaning(xs[i], ctx, tv) {
        assert bs == seq(|xs|, _ => true);
      } else {
        var i :| 0 <= i < |xs| && !Meaning(xs[i], ctx, tv);
        assert bs[i] != seq(|xs|, _ => true)[i];
      }
    case Or(xs) =>
      forall i | 0 <= i < |xs| {
        ApplyIsMeaning(xs[i], ctx, tv);
      }
      var bs := ApplyEach(xs, ctx, tv);
      if exists i :: 0 <= i < |xs| && Meaning(xs[i], ctx, tv) {
        var i :| 0 <= i < |xs| && Meaning(xs[i], ctx, tv);
        assert bs[i] != seq(|xs|, _ => false)[i];
      } else {
        assert bs == seq(|xs|, _ => false);
      }
    case Always(x) =>
      ApplyIsMeaning(x, ctx, tv);
    case IsBound(_, _) =>
    case IsRoot =>
  }

  // ---------------------------------------------------------------------
  // One lemma per construct
  // ---------------------------------------------------------------------

  /** A plain type evaluates to its own constant in every context. */
  lemma LiteralIsConstant(b: bool, ctx: Context, tv: TemplateValue)
    ensures Apply(Literal(b), ctx, tv) == b
  {
  }

  /** A template is instantiated with each `_` replaced by the argument type
      and every other argument kept. */
  lemma TemplateSubstitutesPlaceholders(n: TemplateName, args: seq<Arg>, ctx: Context, tv: TemplateValue, ts: seq<Ty>)
    requires |ts| == |args|
    requires forall i :: 0 <= i < |args| ==> ts[i] == if args[i].Placeholder? then ctx.arg else args[i].ty
    ensures Apply(Template(n, args), ctx, tv) == tv(n, ts)
  {
    assert Substitute(args, ctx.arg) == ts;
  }

  /** `not_` negates its operand. */
  lemma NotNegates(x: Expr, ctx: Context, tv: TemplateValue)
    ensures Apply(Not(x), ctx, tv) == !Apply(x, ctx, tv)
  {
  }

  /** `and_` holds exactly when every operand holds; with no operands it holds. */
  lemma AndIsConjunction(xs: seq<Expr>, ctx: Context, tv: TemplateValue)
    ensures Apply(And(xs), ctx, tv) <==> forall i :: 0 <= i < |xs| ==> Apply(xs[i], ctx, tv)
    ensures xs == [] ==> Apply(And(xs), ctx, tv)
  {
    ApplyIsMeaning(And(xs), ctx, tv);
    forall i | 0 <= i < |xs| {
      ApplyIsMeaning(xs[i], ctx, tv);
    }
  }

  /** `or_` holds exactly when some operand holds; with no operands it fails. */
  lemma OrIsDisjunction(xs: seq<Expr>, ctx: Context, tv: TemplateValue)
    ensures Apply(Or(xs), ctx, tv) <==> exists i :: 0 <= i < |xs| && Apply(xs[i], ctx, tv)
    ensures xs == [] ==> !Apply(Or(xs), ctx, tv)
  {
    ApplyIsMeaning(Or(xs), ctx, tv);
    forall i | 0 <= i < |xs| {
      ApplyIsMeaning(xs[i], ctx, tv);
    }
  }

  /** `always` passes its operand's value through. */
  lemma AlwaysIsTransparent(x: Expr, ctx: Context, tv: TemplateValue)
    ensures Apply(Always(x), ctx, tv) == Apply(x, ctx, tv)
  {
  }

  /** `is_bound<T, Name>` holds exactly when resolving `T` (the argument type
      when `T` is `_`) under `Name` does not give the `not_resolved` sentinel. */
  lemma IsBoundMeansResolved(a: Arg, n: Name, ctx: Context, tv: TemplateValue)
    ensures a == Placeholder ==> (Apply(IsBound(a, n), ctx, tv) <==> ctx.resolve(ctx.arg, n).Resolved?)
    ensures a != Placeholder ==> (Apply(IsBound(a, n), ctx, tv) <==> ctx.resolve(a.ty, n).Resolved?)
  {
  }

  /** `is_root` is the context's root flag. */
  lemma IsRootIsFlag(ctx: Context, tv: TemplateValue)
    ensures Apply(IsRoot, ctx, tv) == ctx.isRoot
  {
  }

  // ---------------------------------------------------------------------
  // Placeholders
  // ---------------------------------------------------------------------

  /** Every `_` in the expression, at any depth, replaced by `t`. */
  function Bind(e: Expr, t: Ty): Expr
    decreases e
  {
    match e
    case Literal(_) => e
    case Template(n, args) => Template(n, seq(|args|, i requires 0 <= i < |args| => Type(ArgType(args[i], t))))
    case Not(x) => Not(Bind(x, t))
    case And(xs) => And(seq(|xs|, i requires 0 <= i < |xs| => Bind(xs[i], t)))
    case Or(xs) => Or(seq(|xs|, i requires 0 <= i < |xs| => Bind(xs[i], t)))
    case Always(x) => Always(Bind(x, t))
    case IsBound(a, n) => IsBound(Type(ArgType(a, t)), n)
    case IsRoot => e
  }

  lemma {:induction false} BindKeepsMeaning(e: Expr, ctx: Context, u: Ty, tv: TemplateValue)
    ensures Meaning(Bind(e, ctx.arg), ctx.(arg := u), tv) == Meaning(e, ctx, tv)
    decreases e
  {
    var ctx' := ctx.(arg := u);
    match e
    case Literal(_) =>
    case Template(n, args) =>
      var bound := seq(|args|, i requires 0 <= i < |args| => Type(ArgType(args[i], ctx.arg)));
      assert Substitute(bound, u) == Substitute(args, ctx.arg);
    case Not(x) =>
      BindKeepsMeaning(x, ctx, u, tv);
    case And(xs) =>
      var ys := seq(|xs|, i requires 0 <= i < |xs| => Bind(xs[i], ctx.arg));
      forall i | 0 <= i < |xs|
        ensures Meaning(ys[i], ctx', tv) == Meaning(xs[i], ctx, tv)
      {
        BindKeepsMeaning(xs[i], ctx, u, tv);
      }
    case Or(xs) =>
      var ys := seq(|xs|, i requires 0 <= i < |xs| => Bind(xs[i], ctx.arg));
      forall i | 0 <= i < |xs|
        ensures Meaning(ys[i], ctx', tv) == Meaning(xs[i], ctx, tv)
      {
        BindKeepsMeaning(xs[i], ctx, u, tv);
      }
      if Meaning(e, ctx, tv) {
        var i :| 0 <= i < |xs| && Meaning(xs[i], ctx, tv);
        assert Meaning(ys[i], ctx', tv);
      }
    case Always(x) =>
      BindKeepsMeaning(x, ctx, u, tv);
    case IsBound(_, _) =>
    case IsRoot =>
  }

  /** The argument type reaches a policy only through its `_` placeholders:
      binding them to the current argument type gives an expression with the
      same value whatever argument type it is later applied to. */
  lemma BindKeepsValue(e: Expr, ctx: Context, u: Ty, tv: TemplateValue)
    ensures Apply(Bind(e, ctx.arg), ctx.(arg := u), tv) == Apply(e, ctx, tv)
  {
    BindKeepsMeaning(e, ctx, u, tv);
    ApplyIsMeaning(e, ctx, tv);
    ApplyIsMeaning(Bind(e, ctx.arg), ctx.(arg := u), tv);
  }

  // ---------------------------------------------------------------------
  // Operators
  // ---------------------------------------------------------------------

  /** `operators::operator||`. */
  function LogicalOr(x: Expr, y: Expr): Expr
  {
    Or([x, y])
  }

  /** `operators::operator&&`. */
  function LogicalAnd(x: Expr, y: Expr): Expr
  {
    And([x, y])
  }

  /** `operators::operator!`. */
  function LogicalNot(x: Expr): Expr
  {
    Not(x)
  }

  /** `x || y` holds when either operand holds. */
  lemma LogicalOrIsOr(x: Expr, y: Expr, ctx: Context, tv: TemplateValue)
    ensures Apply(LogicalOr(x, y), ctx, tv) == (Apply(x, ctx, tv) || Apply(y, ctx, tv))
  {
    OrIsDisjunction([x, y], ctx, tv);
    assert [x, y][0] == x && [x, y][1] == y;
  }

  /** `x && y` holds when both operands hold. */
  lemma LogicalAndIsAnd(x: Expr, y: Expr, ctx: Context, tv: TemplateValue)
    ensures Apply(LogicalAnd(x, y), ctx, tv) == (Apply(x, ctx, tv) && Apply(y, ctx, tv))
  {
    AndIsConjunction([x, y], ctx, tv);
    assert [x, y][0] == x && [x, y][1] == y;
  }

  /** `!x` holds when `x` does not. */
  lemma LogicalNotIsNot(x: Expr, ctx: Context, tv: TemplateValue)
    ensures Apply(LogicalNot(x), ctx, tv) == !Apply(x, ctx, tv)
  {
  }

  /** The operators obey De Morgan's law: `!(x && y)` and `!x || !y` agree. */
  lemma OperatorsDeMorgan(x: Expr, y: Expr, ctx: Context, tv: TemplateValue)
    ensures Apply(LogicalNot(LogicalAnd(x, y)), ctx, tv) == Apply(LogicalOr(LogicalNot(x), LogicalNot(y)), ctx, tv)
  {
    LogicalAndIsAnd(x, y, ctx, tv);
    LogicalOrIsOr(LogicalNot(x), LogicalNot(y), ctx, tv);
  }

  // ---------------------------------------------------------------------
  // constructible
  // ---------------------------------------------------------------------

  /** `constructible_impl<T>`: a callable wrapping a `type_op` expression. */
  datatype ConstructibleImpl = ConstructibleImpl(policy: Expr)

  /** `constructible_impl<T>::operator()(data)`: `T::apply(data)`, which needs
      `T` to be a `type_op`; it agrees with applying the expression through
      `apply_impl`. */
  function Invoke(c: ConstructibleImpl, ctx: Context, tv: TemplateValue): (r: bool)
    requires c.policy.IsTypeOp()
    ensures r == Apply(c.policy, ctx, tv)
  {
    TypeOpApply(c.policy, ctx, tv)
  }

  /** `constructible(const T& = {})` with `T = std::false_type` by default:
      the expression wrapped in `always`. */
  function Constructible(e: Expr := Literal(false)): (c: ConstructibleImpl)
    ensures c.policy.IsTypeOp()
  {
    ConstructibleImpl(Always(e))
  }

  /** A `constructible` policy has the value of the expression it was built
      from; the default one rejects in every context. */
  lemma ConstructibleDelegates(e: Expr, ctx: Context, tv: TemplateValue)
    ensures Invoke(Constructible(e), ctx, tv) == Apply(e, ctx, tv)
    ensures !Invoke(Constructible(), ctx, tv)
  {
  }
}
