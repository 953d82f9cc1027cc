/** Joining two operands and extracting common ones: expr_join_or, expr_join_and and
    expr_extract_eq of expr.c. */
module Simplify {
  import opened Kconfig
  import opened Lists
  import opened Normalise

  // ---------- joining two operands ----------

  predicate IsAtom(e: Expr)
  {
    e.Equal? || e.Unequal? || e.Sym?
  }

  /** The symbol both operands must be about: sym1 of expr_join_or for the first operand. */
  function FirstSymbol(e: Expr): Option<Symbol>
  {
    if IsAtom(e) then Some(e.s)
    else if e.Not? && IsAtom(e.e) then Some(e.e.s)
    else None
  }

  /** sym2: below a NOT only a plain symbol is accepted. */
  function SecondSymbol(e: Expr): Option<Symbol>
  {
    if IsAtom(e) then Some(e.s)
    else if e.Not? && e.e.Sym? then Some(e.e.s)
    else None
  }

  /** The symbol of two operands about the same boolean or tristate symbol. */
  function JoinSymbol(e1: Expr, e2: Expr): Option<Symbol>
  {
    match FirstSymbol(e1)
    case Some(s) => if SecondSymbol(e2) == Some(s) && (IsBoolean(s) || IsTristate(s)) then Some(s) else None
    case None => None
  }

  predicate Pair(a: Symbol, b: Symbol, x: Symbol, y: Symbol)
  {
    (a == x && b == y) || (a == y && b == x)
  }

  /** expr_join_or. */
  function JoinOr(e1: Expr, e2: Expr): Option<Expr>
  {
    if ExprEq(e1, e2) then Some(e1) else
    match JoinSymbol(e1, e2)
    case None => None
    case Some(s) =>
      if IsTristate(s) then
        if e1.Equal? && e2.Equal? then
          if Pair(e1.t, e2.t, SYMBOL_YES, SYMBOL_MOD) then Some(Unequal(s, SYMBOL_NO))
          else if Pair(e1.t, e2.t, SYMBOL_YES, SYMBOL_NO) then Some(Unequal(s, SYMBOL_MOD))
          else if Pair(e1.t, e2.t, SYMBOL_MOD, SYMBOL_NO) then Some(Unequal(s, SYMBOL_YES))
          else None
        else None
      else if (e1.Not? && e1.e.Sym? && e2.Sym?) || (e2.Not? && e2.e.Sym? && e1.Sym?) then Some(Sym(SYMBOL_YES))
      else None
  }

  /** One operand is the symbol itself and the other one compares it with c. */
  predicate SymbolAnd(e1: Expr, e2: Expr, equal: bool, c: Symbol)
  {
    || (e1.Sym? && (if equal then e2.Equal? else e2.Unequal?) && e2.t == c)
    || (e2.Sym? && (if equal then e1.Equal? else e1.Unequal?) && e1.t == c)
  }

  /** expr_join_and. */
  function JoinAnd(e1: Expr, e2: Expr): Option<Expr>
  {
    if ExprEq(e1, e2) then Some(e1) else
    match JoinSymbol(e1, e2)
    case None => None
    case Some(s) =>
      if SymbolAnd(e1, e2, true, SYMBOL_YES) then Some(Equal(s, SYMBOL_YES))
      else if SymbolAnd(e1, e2, false, SYMBOL_NO) then Some(Sym(s))
      else if SymbolAnd(e1, e2, false, SYMBOL_MOD) then Some(Equal(s, SYMBOL_YES))
      else if !IsTristate(s) then None
      else if e1.Equal? && e2.Unequal? && e1.t.Const? && e2.t.Const? then
        Some(if e1.t != e2.t then Equal(s, e1.t) else Sym(SYMBOL_NO))
      else if e1.Unequal? && e2.Equal? && e1.t.Const? && e2.t.Const? then
        Some(if e2.t != e1.t then Equal(s, e2.t) else Sym(SYMBOL_NO))
      else if e1.Unequal? && e2.Unequal? then
        if Pair(e1.t, e2.t, SYMBOL_YES, SYMBOL_NO) then Some(Equal(s, SYMBOL_MOD))
        else if Pair(e1.t, e2.t, SYMBOL_YES, SYMBOL_MOD) then Some(Equal(s, SYMBOL_NO))
        else if Pair(e1.t, e2.t, SYMBOL_MOD, SYMBOL_NO) then Some(Equal(s, SYMBOL_YES))
        else None
      else None
  }

  function Join(op: Op, e1: Expr, e2: Expr): Option<Expr>
  {
    if op == OrOp then JoinOr(e1, e2) else JoinAnd(e1, e2)
  }

  /** A symbol and a test of it are joined, in both orders. */
  lemma SymbolJoins(s: Symbol)
    requires IsBoolean(s) || IsTristate(s)
    ensures JoinAnd(Sym(s), Equal(s, SYMBOL_YES)) == Some(Equal(s, SYMBOL_YES)) == JoinAnd(Equal(s, SYMBOL_YES), Sym(s))
    ensures JoinAnd(Sym(s), Unequal(s, SYMBOL_NO)) == Some(Sym(s)) == JoinAnd(Unequal(s, SYMBOL_NO), Sym(s))
    ensures JoinAnd(Sym(s), Unequal(s, SYMBOL_MOD)) == Some(Equal(s, SYMBOL_YES)) == JoinAnd(Unequal(s, SYMBOL_MOD), Sym(s))
  {
  }

  /** Of two opposite tests of a tristate symbol against constants, the one for equality stays or fails. */
  lemma TestJoins(s: Symbol, x: Symbol, y: Symbol)
    requires IsTristate(s) && x.Const? && y.Const?
    ensures var r := Some(if x != y then Equal(s, x) else Sym(SYMBOL_NO));
            JoinAnd(Equal(s, x), Unequal(s, y)) == r == JoinAnd(Unequal(s, y), Equal(s, x))
  {
  }

  lemma JoinOrSound(env: Env, e1: Expr, e2: Expr)
    requires JoinOr(e1, e2).Some?
    ensures Value(env, JoinOr(e1, e2).value) == Apply(OrOp, Value(env, e1), Value(env, e2))
  {
    hide TriOf, StringOf, ExprEq;
    if ExprEq(e1, e2) {
      ExprEqSound(env, e1, e2);
    } else {
      ComparisonValue(env, JoinSymbol(e1, e2).value);
      NegatedValue(env, e1);
      NegatedValue(env, e2);
    }
  }

  lemma NegatedValue(env: Env, e: Expr)
    ensures e.Not? && e.e.Sym? ==> Value(env, e) == 2 - TriOf(env, e.e.s)
  {
  }

  lemma JoinAndSound(env: Env, e1: Expr, e2: Expr)
    requires JoinAnd(e1, e2).Some?
    ensures Value(env, JoinAnd(e1, e2).value) == Apply(AndOp, Value(env, e1), Value(env, e2))
  {
    hide TriOf, StringOf, ExprEq;
    if ExprEq(e1, e2) {
      ExprEqSound(env, e1, e2);
    } else {
      ComparisonValue(env, JoinSymbol(e1, e2).value);
      ConstantStrings(env, e1);
      ConstantStrings(env, e2);
    }
  }

  lemma ConstantStrings(env: Env, e: Expr)
    ensures (e.Equal? || e.Unequal?) && e.t.Const? ==> StringOf(env, e.t) == e.t.name
  {
  }

  /** The result of a join is not an op node and, with the constant that replaces the other
      operand, no larger than the operands. */
  lemma JoinShape(op: Op, e1: Expr, e2: Expr)
    requires Join(op, e1, e2).Some? && !Is(e1, op)
    ensures var j := Join(op, e1, e2).value; !Is(j, op) && Size(j) + 1 <= Size(e1) + Size(e2)
  {
    hide ExprEq;
  }

  lemma JoinSound(env: Env, op: Op, e1: Expr, e2: Expr)
    requires Join(op, e1, e2).Some?
    ensures Value(env, Join(op, e1, e2).value) == Apply(op, Value(env, e1), Value(env, e2))
  {
    hide JoinOr, JoinAnd, Value;
    if op == OrOp { JoinOrSound(env, e1, e2); } else { JoinAndSound(env, e1, e2); }
  }

  predicate AreConstants(x: Symbol, y: Symbol, z: Symbol)
  {
    {x, y, z} == {SYMBOL_YES, SYMBOL_MOD, SYMBOL_NO}
  }

  /** Two tests of a tristate symbol leave the third value: (s = x) or (s = y) is s != z, and
      (s != x) and (s != y) is s = z. */
  lemma ThirdValue(s: Symbol, x: Symbol, y: Symbol, z: Symbol)
    requires IsTristate(s) && AreConstants(x, y, z)
    ensures JoinOr(Equal(s, x), Equal(s, y)) == Some(Unequal(s, z))
    ensures JoinAnd(Unequal(s, x), Unequal(s, y)) == Some(Equal(s, z))
  {
    assert SYMBOL_YES in {x, y, z} && SYMBOL_MOD in {x, y, z} && SYMBOL_NO in {x, y, z};
    assert x in {SYMBOL_YES, SYMBOL_MOD, SYMBOL_NO} && y in {SYMBOL_YES, SYMBOL_MOD, SYMBOL_NO};
    assert SYMBOL_YES != SYMBOL_MOD && SYMBOL_MOD != SYMBOL_NO && SYMBOL_YES != SYMBOL_NO;
    assert JoinSymbol(Equal(s, x), Equal(s, y)) == Some(s) == JoinSymbol(Unequal(s, x), Unequal(s, y));
  }

  /** Equal operands are joined, and so are a boolean symbol and its negation. */
  lemma SimpleJoins(op: Op, e: Expr, s: Symbol)
    requires Single(e) && IsBoolean(s)
    ensures Join(op, e, e) == Some(e)
    ensures JoinOr(Sym(s), Not(Sym(s))) == Some(Sym(SYMBOL_YES)) == JoinOr(Not(Sym(s)), Sym(s))
  {
    SameSingle(e, e);
    SameSingle(Sym(s), Not(Sym(s)));
    SameSingle(Not(Sym(s)), Sym(s));
  }

  // ---------- common factors ----------

  datatype Extraction = Extraction(common: Option<Expr>, e1: Expr, e2: Expr)

  /** expr_extract_eq: move the operands that both sides share into common. */
  function ExtractEq(op: Op, common: Option<Expr>, e1: Expr, e2: Expr): (x: Extraction)
    ensures Size(x.e1) <= Size(e1) && Size(x.e2) <= Size(e2)
    ensures common.Some? ==> x.common.Some?
    decreases Size(e1) + Size(e2)
  {
    if Is(e1, op) then
      var a := ExtractEq(op, common, e1.l, e2);
      var b := ExtractEq(op, a.common, e1.r, a.e2);
      Extraction(b.common, Make(op, a.e1, b.e1), b.e2)
    else if Is(e2, op) then
      var a := ExtractEq(op, common, e1, e2.l);
      var b := ExtractEq(op, a.common, a.e1, e2.r);
      Extraction(b.common, b.e1, Make(op, a.e2, b.e2))
    else if ExprEq(e1, e2) then
      Extraction(Some(if common.Some? then Make(op, common.value, e1) else e1), Unit(op), Unit(op))
    else Extraction(common, e1, e2)
  }

  function CommonValue(env: Env, op: Op, c: Option<Expr>): tri
  {
    if c.Some? then Value(env, c.value) else UnitValue(op)
  }

  /** What is extracted is exactly a common factor: with it each side has its old value. */
  lemma {:induction false} ExtractEqFactors(env: Env, op: Op, common: Option<Expr>, e1: Expr, e2: Expr) returns (c: tri)
    ensures var x := ExtractEq(op, common, e1, e2);
            && Factors(op, c, Value(env, e1), Value(env, x.e1), Value(env, e2), Value(env, x.e2))
            && CommonValue(env, op, x.common) == Apply(op, CommonValue(env, op, common), c)
    decreases Size(e1) + Size(e2)
  {
    hide Value, TriOf, StringOf, ExprEq, Apply, Unit, UnitValue;
    if Is(e1, op) {
      var a := ExtractEq(op, common, e1.l, e2);
      var b := ExtractEq(op, a.common, e1.r, a.e2);
      var c1 := ExtractEqFactors(env, op, common, e1.l, e2);
      var c2 := ExtractEqFactors(env, op, a.common, e1.r, a.e2);
      c := Apply(op, c1, c2);
      FactorsTwice(op, c1, c2, Value(env, e1.l), Value(env, a.e1), Value(env, e1.r), Value(env, b.e1),
        Value(env, e2), Value(env, a.e2), Value(env, b.e2));
      MakeValue(env, op, e1.l, e1.r);
      MakeValue(env, op, a.e1, b.e1);
      Associates(op, CommonValue(env, op, common), c1, c2);
    } else if Is(e2, op) {
      var a := ExtractEq(op, common, e1, e2.l);
      var b := ExtractEq(op, a.common, a.e1, e2.r);
      var c1 := ExtractEqFactors(env, op, common, e1, e2.l);
      var c2 := ExtractEqFactors(env, op, a.common, a.e1, e2.r);
      c := Apply(op, c1, c2);
      FactorsTwice(op, c1, c2, Value(env, e2.l), Value(env, a.e2), Value(env, e2.r), Value(env, b.e2),
        Value(env, e1), Value(env, a.e1), Value(env, b.e1));
      MakeValue(env, op, e2.l, e2.r);
      MakeValue(env, op, a.e2, b.e2);
      Associates(op, CommonValue(env, op, common), c1, c2);
    } else {
      UnitHasValue(env, op);
      FactorsLeaf(op, Value(env, e1), Value(env, e2));
      Associates(op, CommonValue(env, op, common), UnitValue(op), Value(env, e1));
      c := UnitValue(op);
      if ExprEq(e1, e2) {
        ExprEqSound(env, e1, e2);
        c := Value(env, e1);
        if common.Some? { MakeValue(env, op, common.value, e1); }
      }
    }
  }

  lemma Associates(op: Op, x: tri, y: tri, z: tri)
    ensures Apply(op, Apply(op, x, y), z) == Apply(op, x, Apply(op, y, z))
    ensures Apply(op, x, UnitValue(op)) == x == Apply(op, UnitValue(op), x)
  {
  }

  /** expr_extract_eq_and and expr_extract_eq_or. */
  function Extract(op: Op, e1: Expr, e2: Expr): Extraction
  {
    var x := ExtractEq(op, None, e1, e2);
    if x.common.Some? then Extraction(x.common, EliminateYn(x.e1), EliminateYn(x.e2)) else x
  }

  lemma ExtractFactors(env: Env, op: Op, e1: Expr, e2: Expr)
    ensures var x := Extract(op, e1, e2);
            var c := CommonValue(env, op, x.common);
            Factors(op, c, Value(env, e1), Value(env, x.e1), Value(env, e2), Value(env, x.e2))
  {
    hide Value, ExtractEq, EliminateYn;
    var x := ExtractEq(op, None, e1, e2);
    var c := ExtractEqFactors(env, op, None, e1, e2);
    EliminateYnKeepsValue(env, x.e1);
    EliminateYnKeepsValue(env, x.e2);
  }

  lemma ExtractSingle(op: Op, common: Option<Expr>, x: Expr, y: Expr)
    requires Single(x) && Single(y)
    ensures ExtractEq(op, common, x, y) ==
      if x == y then Extraction(Some(if common.Some? then Make(op, common.value, x) else x), Unit(op), Unit(op)) else Extraction(common, x, y)
  {
    hide ExprEq, Size;
    SameSingle(x, y);
  }

  lemma ExtractPair(op: Op, common: Option<Expr>, x: Expr, l: Expr, r: Expr)
    requires Single(x) && Single(l) && Single(r)
    ensures var a := ExtractEq(op, common, x, l); var b := ExtractEq(op, a.common, a.e1, r);
            ExtractEq(op, common, x, Make(op, l, r)) == Extraction(b.common, b.e1, Make(op, a.e2, b.e2))
  {
    hide ExprEq, Size;
  }

  lemma UnitFolds(op: Op, b: Expr)
    requires EliminateYn(b) == b && !IsYesNo(b)
    ensures EliminateYn(Make(op, Unit(op), b)) == b
  {
  }

  /** An operand that both sides have is extracted, for both operators, and only that. */
  lemma ExtractCommon(op: Op, a: Expr, b: Expr, c: Expr)
    requires Single(a) && Single(b) && Single(c) && a != b && a != c && b != c && !IsYesNo(a) && !IsYesNo(b) && !IsYesNo(c)
    requires EliminateYn(b) == b && EliminateYn(c) == c
    ensures Extract(op, Make(op, a, b), Make(op, a, c)) == Extraction(Some(a), b, c)
  {
    hide ExtractEq, EliminateYn, ExprEq;
    var u := Unit(op);
    ExtractPair(op, None, a, a, c);
    ExtractPair(op, Some(a), b, u, c);
    UnitFolds(op, b);
    UnitFolds(op, c);
    ExtractSingle(op, None, a, a);
    ExtractSingle(op, Some(a), u, c);
    ExtractSingle(op, Some(a), b, u);
    ExtractSingle(op, Some(a), b, c);
    ExtractLeft(op, a, b, Make(op, a, c));
  }

  lemma ExtractLeft(op: Op, l: Expr, r: Expr, e: Expr)
    ensures var a := ExtractEq(op, None, l, e); var b := ExtractEq(op, a.common, r, a.e2);
            ExtractEq(op, None, Make(op, l, r), e) == Extraction(b.common, Make(op, a.e1, b.e1), b.e2)
  {
    hide ExprEq, Size;
  }
}
