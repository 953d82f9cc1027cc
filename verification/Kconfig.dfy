/** Dependency expressions of the configuration language and their simplification: expr.c. */
module Kconfig {
  // ---------- symbols, expressions, values ----------

  datatype SymbolType = Boolean | Tristate | Other

  /** A constant such as 'y' or "foo", or a configuration symbol. */
  datatype Symbol = Const(name: string) | Config(id: nat, ty: SymbolType)

  const SYMBOL_YES := Const("y")
  const SYMBOL_MOD := Const("m")
  const SYMBOL_NO := Const("n")

  datatype Op = OrOp | AndOp

  datatype Expr = Or(l: Expr, r: Expr) | And(l: Expr, r: Expr) | Not(e: Expr)
    | Equal(s: Symbol, t: Symbol) | Unequal(s: Symbol, t: Symbol) | Sym(s: Symbol)

  /** n, m and y as 0, 1 and 2. */
  type tri = x: int | 0 <= x <= 2

  /** What the configuration symbols currently hold. */
  datatype Env = Env(tris: nat -> tri, strings: nat -> string)

  /** curr.tri; a boolean symbol never holds m. */
  function TriOf(env: Env, s: Symbol): tri
  {
    match s
    case Const(name) => if name == "y" then 2 else if name == "m" then 1 else 0
    case Config(id, ty) =>
      var v := env.tris(id);
      if ty == Boolean && v == 1 then 2 else v
  }

  /** sym_get_string_value. */
  function StringOf(env: Env, s: Symbol): string
  {
    match s
    case Const(name) => name
    case Config(id, ty) =>
      if ty == Other then env.strings(id)
      else if TriOf(env, s) == 0 then "n" else if TriOf(env, s) == 1 then "m" else "y"
  }

  function Apply(op: Op, x: tri, y: tri): tri
  {
    if op == OrOp then (if x > y then x else y) else (if x < y then x else y)
  }

  /** expr_calc_value. */
  function Value(env: Env, e: Expr): tri
  {
    match e
    case Or(l, r) => Apply(OrOp, Value(env, l), Value(env, r))
    case And(l, r) => Apply(AndOp, Value(env, l), Value(env, r))
    case Not(x) => 2 - Value(env, x)
    case Equal(s, t) => if StringOf(env, s) == StringOf(env, t) then 2 else 0
    case Unequal(s, t) => if StringOf(env, s) == StringOf(env, t) then 0 else 2
    case Sym(s) => TriOf(env, s)
  }

  /** The number of nodes. */
  function Size(e: Expr): (n: nat)
    ensures 1 <= n
  {
    match e
    case Or(l, r) => 1 + Size(l) + Size(r)
    case And(l, r) => 1 + Size(l) + Size(r)
    case Not(x) => 1 + Size(x)
    case Equal(_, _) => 1
    case Unequal(_, _) => 1
    case Sym(_) => 1
  }

  predicate Is(e: Expr, op: Op)
  {
    if op == OrOp then e.Or? else e.And?
  }

  predicate IsJunction(e: Expr)
  {
    e.Or? || e.And?
  }

  function OpOf(e: Expr): Op
  {
    if e.Or? then OrOp else AndOp
  }

  function Make(op: Op, l: Expr, r: Expr): Expr
  {
    if op == OrOp then Or(l, r) else And(l, r)
  }

  /** The neutral element. */
  function Unit(op: Op): Expr
  {
    if op == OrOp then Sym(SYMBOL_NO) else Sym(SYMBOL_YES)
  }

  function UnitValue(op: Op): tri
  {
    if op == OrOp then 0 else 2
  }

  // ---------- expr_eliminate_yn ----------

  function EliminateYn(e: Expr): (r: Expr)
    ensures Size(r) <= Size(e)
  {
    match e
    case And(l, r) =>
      var a, b := EliminateYn(l), EliminateYn(r);
      if a == Sym(SYMBOL_NO) then a
      else if a == Sym(SYMBOL_YES) then b
      else if b == Sym(SYMBOL_NO) then b
      else if b == Sym(SYMBOL_YES) then a
      else And(a, b)
    case Or(l, r) =>
      var a, b := EliminateYn(l), EliminateYn(r);
      if a == Sym(SYMBOL_NO) then b
      else if a == Sym(SYMBOL_YES) then a
      else if b == Sym(SYMBOL_NO) then a
      else if b == Sym(SYMBOL_YES) then b
      else Or(a, b)
    case _ => e
  }

  lemma ConstantValues(env: Env)
    ensures Value(env, Sym(SYMBOL_YES)) == 2 && Value(env, Sym(SYMBOL_MOD)) == 1 && Value(env, Sym(SYMBOL_NO)) == 0
    ensures Value(env, Unit(OrOp)) == 0 && Value(env, Unit(AndOp)) == 2
  {
  }

  lemma UnitHasValue(env: Env, op: Op)
    ensures Value(env, Unit(op)) == UnitValue(op)
  {
  }

  lemma {:induction false} EliminateYnKeepsValue(env: Env, e: Expr)
    ensures Value(env, EliminateYn(e)) == Value(env, e)
  {
    hide TriOf, StringOf;
    if IsJunction(e) {
      ConstantValues(env);
      EliminateYnKeepsValue(env, e.l);
      EliminateYnKeepsValue(env, e.r);
    }
  }

  predicate IsYesNo(e: Expr)
  {
    e == Sym(SYMBOL_YES) || e == Sym(SYMBOL_NO)
  }

  /** A constant y or n is an operand of some OR or AND reached without passing a NOT. */
  predicate Foldable(e: Expr)
  {
    IsJunction(e) && (IsYesNo(e.l) || IsYesNo(e.r) || Foldable(e.l) || Foldable(e.r))
  }

  lemma {:induction false} EliminateYnShrinks(e: Expr)
    ensures Foldable(e) ==> Size(EliminateYn(e)) < Size(e)
    ensures !Foldable(EliminateYn(e))
  {
    if IsJunction(e) {
      EliminateYnShrinks(e.l);
      EliminateYnShrinks(e.r);
    }
  }

  // ---------- expr_eq and expr_eliminate_eq ----------

  /** SYMBOL_YES or SYMBOL_NO is among the flags: true of every constant but 'm'. */
  predicate YesNoFlag(s: Symbol)
  {
    s.Const? && s != SYMBOL_MOD
  }

  /** __expr_eliminate_eq: cancel equal operands of the two sides. */
  function CancelEq(op: Op, e1: Expr, e2: Expr): (r: (Expr, Expr))
    ensures Size(r.0) <= Size(e1) && Size(r.1) <= Size(e2)
    ensures Is(e1, op) ==> Is(r.0, op)
    decreases Size(e1) + Size(e2), if Is(e1, op) || Is(e2, op) then 0 else 3
  {
    if Is(e1, op) then
      var a := CancelEq(op, e1.l, e2);
      var b := CancelEq(op, e1.r, a.1);
      (Make(op, a.0, b.0), b.1)
    else if Is(e2, op) then
      var a := CancelEq(op, e1, e2.l);
      var b := CancelEq(op, a.0, e2.r);
      (b.0, Make(op, a.1, b.1))
    else if e1.Sym? && e1 == e2 && YesNoFlag(e1.s) then (e1, e2)
    else if ExprEq(e1, e2) then (Unit(op), Unit(op))
    else (e1, e2)
  }

  /** expr_eliminate_eq. */
  function EliminateEq(e1: Expr, e2: Expr): (r: (Expr, Expr))
    ensures Size(r.0) <= Size(e1) && Size(r.1) <= Size(e2)
    decreases Size(e1) + Size(e2), 1
  {
    var a := if IsJunction(e1) then CancelEq(OpOf(e1), e1, e2) else (e1, e2);
    var b := if IsJunction(a.1) && !(IsJunction(a.0) && OpOf(a.0) == OpOf(a.1))
             then CancelEq(OpOf(a.1), a.0, a.1) else a;
    (EliminateYn(b.0), EliminateYn(b.1))
  }

  predicate ExprEq(e1: Expr, e2: Expr)
    decreases Size(e1) + Size(e2), 2
  {
    if e1.Sym? || e1.Equal? || e1.Unequal? then e1 == e2
    else if e1.Not? then e2.Not? && ExprEq(e1.e, e2.e)
    else
      Is(e2, OpOf(e1)) &&
      var r := EliminateEq(e1, e2);
      r.0.Sym? && r.0 == r.1
  }

  /** Both sides are (common part) op (what is left), with the same common part. */
  ghost predicate Factors(op: Op, c: tri, x: tri, x': tri, y: tri, y': tri)
  {
    x == Apply(op, c, x') && y == Apply(op, c, y')
  }

  lemma FactorsTwice(op: Op, c: tri, d: tri, x: tri, x': tri, y: tri, y': tri, z: tri, z': tri, z'': tri)
    requires Factors(op, c, x, x', z, z') && Factors(op, d, y, y', z', z'')
    ensures Factors(op, Apply(op, c, d), Apply(op, x, y), Apply(op, x', y'), z, z'')
    ensures Factors(op, Apply(op, c, d), z, z'', Apply(op, x, y), Apply(op, x', y'))
  {
  }

  lemma FactorsLeaf(op: Op, x: tri, y: tri)
    ensures Factors(op, UnitValue(op), x, x, y, y)
    ensures x == y ==> Factors(op, x, x, UnitValue(op), y, UnitValue(op))
  {
  }

  lemma MakeValue(env: Env, op: Op, l: Expr, r: Expr)
    ensures Value(env, Make(op, l, r)) == Apply(op, Value(env, l), Value(env, r))
  {
  }

  lemma {:induction false} CancelEqFactors(env: Env, op: Op, e1: Expr, e2: Expr) returns (c: tri)
    ensures var r := CancelEq(op, e1, e2);
            Factors(op, c, Value(env, e1), Value(env, r.0), Value(env, e2), Value(env, r.1))
    decreases Size(e1) + Size(e2), if Is(e1, op) || Is(e2, op) then 0 else 3
  {
    hide Value, TriOf, StringOf, ExprEq, EliminateYn, Apply, Unit, UnitValue;
    if Is(e1, op) {
      var a := CancelEq(op, e1.l, e2);
      var b := CancelEq(op, e1.r, a.1);
      var c1 := CancelEqFactors(env, op, e1.l, e2);
      var c2 := CancelEqFactors(env, op, e1.r, a.1);
      c := Apply(op, c1, c2);
      FactorsTwice(op, c1, c2, Value(env, e1.l), Value(env, a.0), Value(env, e1.r), Value(env, b.0),
        Value(env, e2), Value(env, a.1), Value(env, b.1));
      MakeValue(env, op, e1.l, e1.r);
      MakeValue(env, op, a.0, b.0);
    } else if Is(e2, op) {
      var a := CancelEq(op, e1, e2.l);
      var b := CancelEq(op, a.0, e2.r);
      var c1 := CancelEqFactors(env, op, e1, e2.l);
      var c2 := CancelEqFactors(env, op, a.0, e2.r);
      c := Apply(op, c1, c2);
      FactorsTwice(op, c1, c2, Value(env, e2.l), Value(env, a.1), Value(env, e2.r), Value(env, b.1),
        Value(env, e1), Value(env, a.0), Value(env, b.0));
      MakeValue(env, op, e2.l, e2.r);
      MakeValue(env, op, a.1, b.1);
    } else {
      UnitHasValue(env, op);
      c := UnitValue(op);
      FactorsLeaf(op, Value(env, e1), Value(env, e2));
      if !(e1.Sym? && e1 == e2 && YesNoFlag(e1.s)) && ExprEq(e1, e2) {
        ExprEqSound(env, e1, e2);
        c := Value(env, e1);
      }
    }
  }

  /** Equal remainders mean equal sides. */
  lemma {:induction false} EliminateEqSound(env: Env, e1: Expr, e2: Expr)
    ensures var r := EliminateEq(e1, e2);
            Value(env, r.0) == Value(env, r.1) ==> Value(env, e1) == Value(env, e2)
    decreases Size(e1) + Size(e2), 1
  {
    hide TriOf, StringOf, CancelEq, EliminateYn, Value;
    var a, b := (e1, e2), (e1, e2);
    if IsJunction(e1) {
      var c := CancelEqFactors(env, OpOf(e1), e1, e2);
      a := CancelEq(OpOf(e1), e1, e2);
    }
    b := a;
    if IsJunction(a.1) && !(IsJunction(a.0) && OpOf(a.0) == OpOf(a.1)) {
      var c := CancelEqFactors(env, OpOf(a.1), a.0, a.1);
      b := CancelEq(OpOf(a.1), a.0, a.1);
    }
    EliminateYnKeepsValue(env, b.0);
    EliminateYnKeepsValue(env, b.1);
  }

  /** Expressions that expr_eq takes for equal have the same value under every assignment. */
  lemma {:induction false} ExprEqSound(env: Env, e1: Expr, e2: Expr)
    requires ExprEq(e1, e2)
    ensures Value(env, e1) == Value(env, e2)
    decreases Size(e1) + Size(e2), 2
  {
    hide TriOf, StringOf;
    if e1.Not? {
      ExprEqSound(env, e1.e, e2.e);
    } else if IsJunction(e1) {
      EliminateEqSound(env, e1, e2);
    }
  }

  // ---------- what expr_eq recognises ----------

  /** No OR or AND occurs in e. */
  predicate Single(e: Expr)
  {
    if e.Not? then Single(e.e) else !IsJunction(e)
  }

  lemma {:induction false} SameSingle(e1: Expr, e2: Expr)
    requires Single(e1) && Single(e2)
    ensures ExprEq(e1, e2) <==> e1 == e2
  {
    if e1.Not? && e2.Not? { SameSingle(e1.e, e2.e); }
  }

  /** A constant that __expr_eliminate_eq does not cancel. */
  predicate Skipped(e: Expr)
  {
    e.Sym? && YesNoFlag(e.s)
  }

  lemma CancelSingle(op: Op, a: Expr, b: Expr)
    requires Single(a) && Single(b)
    ensures CancelEq(op, a, b) == if a == b && !Skipped(a) then (Unit(op), Unit(op)) else (a, b)
  {
    hide ExprEq;
    SameSingle(a, b);
  }

  /** The order of the operands does not matter to expr_eq. */
  lemma SwappedOperands(op: Op, a: Expr, b: Expr)
    requires Single(a) && Single(b) && !Skipped(a) && !Skipped(b)
    ensures ExprEq(Make(op, a, b), Make(op, b, a))
  {
    hide CancelEq, EliminateEq, ExprEq, Unit, EliminateYn;
    CancelSwapped(op, a, b);
    AllCancelled(op, Make(op, a, b), Make(op, b, a));
  }

  lemma CancelSwapped(op: Op, a: Expr, b: Expr)
    requires Single(a) && Single(b) && !Skipped(a) && !Skipped(b)
    ensures var rest := Make(op, Unit(op), Unit(op)); CancelEq(op, Make(op, a, b), Make(op, b, a)) == (rest, rest)
  {
    hide CancelEq;
    var u, e2 := Unit(op), Make(op, b, a);
    CancelSingle(op, a, b);
    CancelSingle(op, a, a);
    CancelSingle(op, u, a);
    CancelSingle(op, b, b);
    CancelSingle(op, u, u);
    CancelSingle(op, a, u);
    CancelMake(op, a, b, a);
    CancelMake(op, b, b, u);
    CancelMake(op, a, u, a);
    CancelLeft(op, a, b, e2);
  }

  lemma AllCancelled(op: Op, e1: Expr, e2: Expr)
    requires Is(e1, op) && Is(e2, op)
    requires var rest := Make(op, Unit(op), Unit(op)); CancelEq(op, e1, e2) == (rest, rest)
    ensures ExprEq(e1, e2)
  {
    assert EliminateYn(Unit(op)) == Unit(op);
    assert EliminateYn(Make(op, Unit(op), Unit(op))) == Unit(op);
    assert EliminateEq(e1, e2) == (Unit(op), Unit(op));
  }

  lemma CancelMake(op: Op, a: Expr, x: Expr, y: Expr)
    requires !Is(a, op)
    ensures var s := CancelEq(op, a, x); var t := CancelEq(op, s.0, y);
            CancelEq(op, a, Make(op, x, y)) == (t.0, Make(op, s.1, t.1))
  {
  }

  lemma CancelLeft(op: Op, x: Expr, y: Expr, e2: Expr)
    ensures var s := CancelEq(op, x, e2); var t := CancelEq(op, y, s.1);
            CancelEq(op, Make(op, x, y), e2) == (Make(op, s.0, t.0), t.1)
  {
  }
}
