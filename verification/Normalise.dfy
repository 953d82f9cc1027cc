/** Negation normal form: expr_transform and expr_trans_bool of expr.c. */
module Normalise {
  import opened Kconfig

  /** The measure that every rewrite of expr_transform keeps or lowers. */
  function Weight(e: Expr): (n: nat)
    ensures 1 <= n
  {
    match e
    case Or(l, r) => 1 + Weight(l) + Weight(r)
    case And(l, r) => 1 + Weight(l) + Weight(r)
    case Not(x) => 2 * Weight(x)
    case Equal(_, _) => 2
    case Unequal(_, _) => 2
    case Sym(_) => 1
  }

  predicate IsBoolean(s: Symbol)
  {
    s.Config? && s.ty == Boolean
  }

  predicate IsTristate(s: Symbol)
  {
    s.Config? && s.ty == Tristate
  }

  lemma DeMorganWeight(l: Expr, r: Expr)
    ensures Weight(And(Not(l), Not(r))) < Weight(Not(Or(l, r)))
    ensures Weight(Or(Not(l), Not(r))) < Weight(Not(And(l, r)))
  {
    assert Weight(Not(l)) + Weight(Not(r)) == 2 * Weight(l) + 2 * Weight(r);
    assert Weight(Or(l, r)) == Weight(And(l, r)) == 1 + Weight(l) + Weight(r);
  }

  /** expr_transform. */
  function Transform(e: Expr): (r: Expr)
    ensures Weight(r) <= Weight(e)
    decreases Weight(e)
  {
    match e
    case Or(l, r) => Or(Transform(l), Transform(r))
    case And(l, r) => And(Transform(l), Transform(r))
    case Equal(s, t) =>
      if !IsBoolean(s) then e
      else if t == SYMBOL_NO then Not(Sym(s))
      else if t == SYMBOL_MOD then Sym(SYMBOL_NO)
      else if t == SYMBOL_YES then Sym(s)
      else e
    case Unequal(s, t) =>
      if !IsBoolean(s) then e
      else if t == SYMBOL_NO then Sym(s)
      else if t == SYMBOL_MOD then Sym(SYMBOL_YES)
      else if t == SYMBOL_YES then Not(Sym(s))
      else e
    case Sym(_) => e
    case Not(x) =>
      match Transform(x)
      case Not(y) => Transform(y)
      case Equal(s, t) => Unequal(s, t)
      case Unequal(s, t) => Equal(s, t)
      case Or(l, r) => DeMorganWeight(l, r); Transform(And(Not(l), Not(r)))
      case And(l, r) => DeMorganWeight(l, r); Transform(Or(Not(l), Not(r)))
      case Sym(s) =>
        if s == SYMBOL_YES then Sym(SYMBOL_NO)
        else if s == SYMBOL_MOD then Sym(SYMBOL_MOD)
        else if s == SYMBOL_NO then Sym(SYMBOL_YES)
        else Not(Sym(s))
  }

  /** NOT stands only directly above symbols other than y, m and n. */
  predicate Normal(e: Expr)
  {
    match e
    case Or(l, r) => Normal(l) && Normal(r)
    case And(l, r) => Normal(l) && Normal(r)
    case Not(x) => x.Sym? && x.s != SYMBOL_YES && x.s != SYMBOL_MOD && x.s != SYMBOL_NO
    case _ => true
  }

  lemma {:induction false} TransformNormal(e: Expr)
    ensures Normal(Transform(e))
    decreases Weight(e)
  {
    match e
    case Or(l, r) => TransformNormal(l); TransformNormal(r);
    case And(l, r) => TransformNormal(l); TransformNormal(r);
    case Not(x) =>
      TransformNormal(x);
      match Transform(x) {
        case Not(y) => TransformNormal(y);
        case Or(l, r) => DeMorganWeight(l, r); TransformNormal(And(Not(l), Not(r)));
        case And(l, r) => DeMorganWeight(l, r); TransformNormal(Or(Not(l), Not(r)));
        case _ =>
      }
    case _ =>
  }

  /** A boolean symbol is compared with y, m or n somewhere in e. */
  predicate TestsBoolean(e: Expr)
  {
    match e
    case Or(l, r) => TestsBoolean(l) || TestsBoolean(r)
    case And(l, r) => TestsBoolean(l) || TestsBoolean(r)
    case Not(x) => TestsBoolean(x)
    case Equal(s, t) => IsBoolean(s) && (t == SYMBOL_YES || t == SYMBOL_MOD || t == SYMBOL_NO)
    case Unequal(s, t) => IsBoolean(s) && (t == SYMBOL_YES || t == SYMBOL_MOD || t == SYMBOL_NO)
    case Sym(_) => false
  }

  /** No such test is left. */
  lemma {:induction false} TransformRemovesTests(e: Expr)
    ensures !TestsBoolean(Transform(e))
    decreases Weight(e)
  {
    match e
    case Or(l, r) => TransformRemovesTests(l); TransformRemovesTests(r);
    case And(l, r) => TransformRemovesTests(l); TransformRemovesTests(r);
    case Not(x) =>
      TransformRemovesTests(x);
      match Transform(x) {
        case Not(y) => TransformRemovesTests(y);
        case Or(l, r) => DeMorganWeight(l, r); TransformRemovesTests(And(Not(l), Not(r)));
        case And(l, r) => DeMorganWeight(l, r); TransformRemovesTests(Or(Not(l), Not(r)));
        case _ =>
      }
    case _ =>
  }

  lemma {:induction false} TransformKeepsValue(env: Env, e: Expr)
    ensures Value(env, Transform(e)) == Value(env, e)
    decreases Weight(e)
  {
    hide TriOf, StringOf;
    match e
    case Or(l, r) => TransformKeepsValue(env, l); TransformKeepsValue(env, r);
    case And(l, r) => TransformKeepsValue(env, l); TransformKeepsValue(env, r);
    case Not(x) => TransformNotKeepsValue(env, x);
    case Equal(s, t) => ComparisonValue(env, s);
    case Unequal(s, t) => ComparisonValue(env, s);
    case _ =>
  }

  lemma {:induction false} TransformNotKeepsValue(env: Env, x: Expr)
    ensures Value(env, Transform(Not(x))) == Value(env, Not(x))
    decreases Weight(Not(x)), 0
  {
    hide TriOf, StringOf;
    TransformKeepsValue(env, x);
    match Transform(x)
    case Not(y) => TransformKeepsValue(env, y);
    case Or(l, r) =>
      DeMorganWeight(l, r);
      DeMorganValue(env, l, r);
      TransformKeepsValue(env, And(Not(l), Not(r)));
    case And(l, r) =>
      DeMorganWeight(l, r);
      DeMorganValue(env, l, r);
      TransformKeepsValue(env, Or(Not(l), Not(r)));
    case _ => ConstantValues(env);
  }

  lemma DeMorganValue(env: Env, l: Expr, r: Expr)
    ensures Value(env, And(Not(l), Not(r))) == Value(env, Not(Or(l, r)))
    ensures Value(env, Or(Not(l), Not(r))) == Value(env, Not(And(l, r)))
  {
    assert Value(env, Not(l)) == 2 - Value(env, l) && Value(env, Not(r)) == 2 - Value(env, r);
    assert Value(env, Or(l, r)) == Apply(OrOp, Value(env, l), Value(env, r));
    assert Value(env, And(l, r)) == Apply(AndOp, Value(env, l), Value(env, r));
  }

  /** Comparing a boolean or tristate symbol with y, m or n. */
  lemma ComparisonValue(env: Env, s: Symbol)
    ensures IsBoolean(s) || IsTristate(s) ==>
      && (StringOf(env, s) == StringOf(env, SYMBOL_YES) <==> TriOf(env, s) == 2)
      && (StringOf(env, s) == StringOf(env, SYMBOL_MOD) <==> TriOf(env, s) == 1)
      && (StringOf(env, s) == StringOf(env, SYMBOL_NO) <==> TriOf(env, s) == 0)
    ensures IsBoolean(s) ==> TriOf(env, s) != 1
    ensures TriOf(env, SYMBOL_YES) == 2 && TriOf(env, SYMBOL_MOD) == 1 && TriOf(env, SYMBOL_NO) == 0
  {
    assert "y"[0] != "m"[0] && "y"[0] != "n"[0] && "m"[0] != "n"[0];
  }

  // ---------- expr_trans_bool ----------

  function TransBool(e: Expr): Expr
  {
    match e
    case Or(l, r) => Or(TransBool(l), TransBool(r))
    case And(l, r) => And(TransBool(l), TransBool(r))
    case Not(x) => Not(TransBool(x))
    case Unequal(s, t) => if IsTristate(s) && t == SYMBOL_NO then Sym(s) else e
    case _ => e
  }

  /** A tristate symbol is compared with n somewhere in e. */
  predicate TestsTristate(e: Expr)
  {
    match e
    case Or(l, r) => TestsTristate(l) || TestsTristate(r)
    case And(l, r) => TestsTristate(l) || TestsTristate(r)
    case Not(x) => TestsTristate(x)
    case Unequal(s, t) => IsTristate(s) && t == SYMBOL_NO
    case _ => false
  }

  /** It removes every such test, and changes nothing else. */
  lemma {:induction false} TransBoolRemovesTests(e: Expr)
    ensures !TestsTristate(TransBool(e))
    ensures !TestsTristate(e) ==> TransBool(e) == e
  {
    match e
    case Or(l, r) => TransBoolRemovesTests(l); TransBoolRemovesTests(r);
    case And(l, r) => TransBoolRemovesTests(l); TransBoolRemovesTests(r);
    case Not(x) => TransBoolRemovesTests(x);
    case _ =>
  }

  /** No such test stands below a NOT. */
  predicate TestsOutsideNot(e: Expr)
  {
    match e
    case Or(l, r) => TestsOutsideNot(l) && TestsOutsideNot(r)
    case And(l, r) => TestsOutsideNot(l) && TestsOutsideNot(r)
    case Not(x) => !TestsTristate(x)
    case _ => true
  }

  lemma {:induction false} NormalTests(e: Expr)
    requires Normal(e)
    ensures TestsOutsideNot(e)
  {
    match e
    case Or(l, r) => NormalTests(l); NormalTests(r);
    case And(l, r) => NormalTests(l); NormalTests(r);
    case _ =>
  }

  /** Then expr_trans_bool keeps whether the value differs from n; normal forms are like this. */
  lemma {:induction false} TransBoolKeepsTruth(env: Env, e: Expr)
    requires TestsOutsideNot(e)
    ensures Value(env, TransBool(e)) == 0 <==> Value(env, e) == 0
  {
    hide TriOf, StringOf;
    match e
    case Or(l, r) => TransBoolKeepsTruth(env, l); TransBoolKeepsTruth(env, r);
    case And(l, r) => TransBoolKeepsTruth(env, l); TransBoolKeepsTruth(env, r);
    case Not(x) => TransBoolRemovesTests(x);
    case Unequal(s, t) => ComparisonValue(env, s);
    case _ =>
  }

  /** Below a NOT it does not: !(A != n) holds m after the rewrite when A holds m. */
  lemma TransBoolUnderNot(env: Env, id: nat)
    requires env.tris(id) == 1
    ensures var e := Not(Unequal(Config(id, Tristate), SYMBOL_NO));
            Value(env, e) == 0 && Value(env, TransBool(e)) == 1
  {
    ComparisonValue(env, Config(id, Tristate));
  }
}
