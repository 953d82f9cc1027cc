/** An operand and the negation of all its parts, which expr_eliminate_dups recognises for both operators; and
    the value m, which it loses there. */
module LostMod {
  import opened Kconfig
  import opened Lists
  import opened Normalise
  import opened Simplify
  import opened Duplicates

  function Other(op: Op): Op
  {
    if op == OrOp then AndOp else OrOp
  }

  /** (A || B) && (!A && !B), or (A && B) || (!A || !B). */
  function Clash(op: Op, a: Expr, b: Expr): (t: Expr)
    ensures Is(t, op)
  {
    Make(op, Make(Other(op), a, b), Make(op, Not(a), Not(b)))
  }

  predicate TwoSymbols(a: Expr, b: Expr)
  {
    a.Sym? && b.Sym? && a.s.Config? && b.s.Config? && a != b
  }

  /** The value m itself can be lost: for tristate A and B that hold m, (A || B) && (!A && !B) holds m,
      and expr_eliminate_dups makes it n; and likewise y of (A && B) || (!A || !B). */
  lemma ModIsLost(env: Env, op: Op, i: nat, j: nat)
    requires i != j && env.tris(i) == 1 == env.tris(j)
    ensures var t := Clash(op, Sym(Config(i, Tristate)), Sym(Config(j, Tristate)));
            Value(env, t) == 1 && Reduced(t) == Absorber(op) && Value(env, Reduced(t)) == if op == OrOp then 2 else 0
  {
    hide Reduced;
    var a, b := Sym(Config(i, Tristate)), Sym(Config(j, Tristate));
    HoldsMod(env, i);
    HoldsMod(env, j);
    MiddleValue(env, op, a, b);
    ConstantValues(env);
    ClashReduced(op, a, b);
  }

  /** The contradiction is found for any two symbols and both operators. */
  lemma ClashReduced(op: Op, a: Expr, b: Expr)
    requires TwoSymbols(a, b)
    ensures Reduced(Clash(op, a, b)) == Absorber(op)
  {
    hide Dups1, Dups2;
    var t := Clash(op, a, b);
    Root(op, t);
    ClashQuiet(op, a, b);
    Dups1Idle(op, t, Here, Here, 0);
    ClashDups2(op, a, b);
    var s := Round(t);
    assert s == State(Make(op, Absorber(op), t.r), 1);
    assert EliminateYn(s.t) == Absorber(op);
    assert Round(Absorber(op)).count == 0;
  }

  lemma InnerQuiet(op: Op, a: Expr, b: Expr)
    requires TwoSymbols(a, b)
    ensures Quiet(Make(Other(op), a, b))
  {
    hide Dups1;
    var e := Make(Other(op), a, b);
    forall q1, q2 | Leaves(Other(op), e, q1, q2)
      ensures Join(Other(op), At(Other(op), e, q1), At(Other(op), e, q2)).None? && Quiet(At(Other(op), e, q1))
    {
    }
    forall count: nat ensures Dups1(Other(op), e, Here, Here, count) == State(e, count) {
      Dups1Idle(Other(op), e, Here, Here, count);
    }
  }

  lemma ClashQuiet(op: Op, a: Expr, b: Expr)
    requires TwoSymbols(a, b)
    ensures QuietPair(op, Clash(op, a, b), Here, Here)
  {
    hide Dups1, Quiet;
    var t := Clash(op, a, b);
    InnerQuiet(op, a, b);
    assert Quiet(Not(a)) && Quiet(Not(b)) by { SingleQuiet(Not(a)); SingleQuiet(Not(b)); }
    forall q1, q2 | Leaves(op, t, q1, q2)
      ensures Join(op, At(op, t, q1), At(op, t, q2)).None? && Quiet(At(op, t, q1))
    {
      ClashLeaf(op, a, b, q1);
      ClashLeaf(op, a, b, q2);
      ClashJoin(op, a, b, At(op, t, q1), At(op, t, q2));
    }
  }

  lemma ClashJoin(op: Op, a: Expr, b: Expr, e1: Expr, e2: Expr)
    requires TwoSymbols(a, b) && e1 != e2
    requires e1 in {Make(Other(op), a, b), Not(a), Not(b)} && e2 in {Make(Other(op), a, b), Not(a), Not(b)}
    ensures Join(op, e1, e2).None?
  {
    Different(op, Not(a), Not(b));
  }

  lemma SingleQuiet(e: Expr)
    requires !IsJunction(e)
    ensures Quiet(e)
  {
  }

  lemma ClashLeaf(op: Op, a: Expr, b: Expr, q: Path)
    requires TwoSymbols(a, b) && OnSpine(op, Clash(op, a, b), q) && !Is(At(op, Clash(op, a, b), q), op)
    ensures var t := Clash(op, a, b);
            || (q == Left(Here) && At(op, t, q) == Make(Other(op), a, b))
            || (q == Right(Left(Here)) && At(op, t, q) == Not(a))
            || (q == Right(Right(Here)) && At(op, t, q) == Not(b))
  {
    var t := Clash(op, a, b);
    ClashPlaces(op, a, b);
    if q.Right? {
      var r := q.rest;
      assert OnSpine(op, t.r, r) && At(op, t, q) == At(op, t.r, r);
      if r.Left? { assert OnSpine(op, t.r.l, r.rest); }
      if r.Right? { assert OnSpine(op, t.r.r, r.rest); }
    }
  }

  lemma ClashPlaces(op: Op, a: Expr, b: Expr)
    requires TwoSymbols(a, b)
    ensures var t := Clash(op, a, b);
            && OnSpine(op, t, Left(Here)) && At(op, t, Left(Here)) == Make(Other(op), a, b)
            && OnSpine(op, t, Right(Here)) && At(op, t, Right(Here)) == t.r
            && OnSpine(op, t, Right(Left(Here))) && At(op, t, Right(Left(Here))) == Not(a)
            && OnSpine(op, t, Right(Right(Here))) && At(op, t, Right(Right(Here))) == Not(b)
            && Put(op, t, Left(Here), t.l) == t && Put(op, t, Left(Here), Absorber(op)) == Make(op, Absorber(op), t.r)
  {
    var t := Clash(op, a, b);
    assert OnSpine(op, t.r, Left(Here)) && At(op, t.r, Left(Here)) == Not(a);
    assert OnSpine(op, t.r, Right(Here)) && At(op, t.r, Right(Here)) == Not(b);
  }

  lemma ClashPair(op: Op, a: Expr, b: Expr, p2: Path)
    requires TwoSymbols(a, b) && FirstIsLeaf(op, Clash(op, a, b), Left(Here), p2)
    ensures var t := Clash(op, a, b); var x := Extract(op, t.r, At(op, t, p2));
            Dups2Pair(op, t, Left(Here), p2, 0) == if x.e1 == Unit(op) then State(Make(op, Absorber(op), t.r), 1) else State(t, 0)
  {
    hide Dups2, Extract, Transform, At, Put, OnSpine, Size, SameSpine, Foldable;
    var t := Clash(op, a, b);
    ClashPlaces(op, a, b);
    Root(Other(op), t.l);
    Dups2Idle(Other(op), t.l, Here, Here, 0);
    ClashNegated(op, a, b);
    var s := Contradict(op, t, Left(Here), p2, State(t.l, 0));
    assert Dups2Pair(op, t, Left(Here), p2, 0) == s;
  }

  lemma ClashNegated(op: Op, a: Expr, b: Expr)
    requires TwoSymbols(a, b)
    ensures Transform(Not(Make(Other(op), a, b))) == Make(op, Not(a), Not(b))
  {
    hide Weight;
    assert Transform(a) == a && Transform(b) == b;
    assert Transform(Not(a)) == Not(a) && Transform(Not(b)) == Not(b);
    assert Transform(Make(Other(op), a, b)) == Make(Other(op), a, b);
    assert Transform(Make(op, Not(a), Not(b))) == Make(op, Not(a), Not(b));
  }

  /** The contradiction is found when the second pointer is at the second part, and only there. */
  lemma ClashPairs(op: Op, a: Expr, b: Expr)
    requires TwoSymbols(a, b)
    ensures var t := Clash(op, a, b); var p := Left(Here);
            && FirstIsLeaf(op, t, p, Right(Here)) && Dups2Pair(op, t, p, Right(Here), 0) == State(Make(op, Absorber(op), t.r), 1)
            && FirstIsLeaf(op, t, p, Right(Left(Here))) && Dups2Pair(op, t, p, Right(Left(Here)), 0) == State(t, 0)
            && FirstIsLeaf(op, t, p, Right(Right(Here))) && Dups2Pair(op, t, p, Right(Right(Here)), 0) == State(t, 0)
  {
    hide Dups2Pair, Extract;
    ClashPlaces(op, a, b);
    ExtractBoth(op, Not(a), Not(b));
    ExtractOne(op, Not(a), Not(b));
    ClashPair(op, a, b, Right(Here));
    ClashPair(op, a, b, Right(Left(Here)));
    ClashPair(op, a, b, Right(Right(Here)));
  }

  lemma ClashDups2(op: Op, a: Expr, b: Expr)
    requires TwoSymbols(a, b)
    ensures Dups2(op, Clash(op, a, b), Here, Here, 0) == State(Make(op, Absorber(op), Clash(op, a, b).r), 1)
  {
    hide Dups2Pair;
    var t, p := Clash(op, a, b), Left(Here);
    var t' := Make(op, Absorber(op), t.r);
    ClashPlaces(op, a, b);
    ClashPairs(op, a, b);
    assert Dups2(op, t, p, Right(Left(Here)), 0) == State(t, 0);
    assert Dups2(op, t, p, Right(Right(Here)), 0) == State(t, 0);
    assert Dups2Operands(op, t, p, Right(Here), 0) == State(t, 0);
    assert Dups2(op, t, p, Right(Here), 0) == State(t', 1);
    assert Dups2(op, t, p, Left(Here), 0) == State(t, 0);
    assert Dups2Operands(op, t, p, Here, 0) == State(t', 1);
    PlainPair(op, t', p, Here, 1);
    assert Dups2(op, t, p, Here, 0) == State(t', 1);
    Dups2Idle(op, t', Right(Here), Here, 1);
  }

  lemma HoldsMod(env: Env, i: nat)
    requires env.tris(i) == 1
    ensures Value(env, Sym(Config(i, Tristate))) == 1
  {
  }

  lemma MiddleValue(env: Env, op: Op, a: Expr, b: Expr)
    requires Value(env, a) == 1 == Value(env, b)
    ensures Value(env, Clash(op, a, b)) == 1
  {
    assert Value(env, Not(a)) == 1 == Value(env, Not(b));
  }

  lemma Different(op: Op, x: Expr, y: Expr)
    requires x.Not? && y.Not? && x.e.Sym? && y.e.Sym? && x != y
    ensures ExprEq(x, x) && ExprEq(y, y) && !ExprEq(x, y) && !ExprEq(y, x)
    ensures var u := Unit(op); !ExprEq(x, u) && !ExprEq(u, x) && !ExprEq(y, u) && !ExprEq(u, y)
  {
    hide ExprEq;
    var u := Unit(op);
    SameSingle(x, x);
    SameSingle(y, y);
    SameSingle(x, y);
    SameSingle(y, x);
    SameSingle(x, u);
    SameSingle(u, x);
    SameSingle(y, u);
    SameSingle(u, y);
  }

  lemma ExtractBoth(op: Op, x: Expr, y: Expr)
    requires x.Not? && y.Not? && x.e.Sym? && y.e.Sym? && x != y
    ensures Extract(op, Make(op, x, y), Make(op, x, y)).e1 == Unit(op)
  {
    var u := Unit(op);
    Different(op, x, y);
    hide ExprEq;
    assert ExtractEq(op, None, x, x) == Extraction(Some(x), u, u);
    assert ExtractEq(op, Some(x), u, y) == Extraction(Some(x), u, y);
    assert ExtractEq(op, None, x, Make(op, x, y)) == Extraction(Some(x), u, Make(op, u, y));
    assert ExtractEq(op, Some(x), y, u) == Extraction(Some(x), y, u);
    assert ExtractEq(op, Some(x), y, y) == Extraction(Some(Make(op, x, y)), u, u);
    assert ExtractEq(op, Some(x), y, Make(op, u, y)) == Extraction(Some(Make(op, x, y)), u, Make(op, u, u));
    assert ExtractEq(op, None, Make(op, x, y), Make(op, x, y)) == Extraction(Some(Make(op, x, y)), Make(op, u, u), Make(op, u, u));
    assert EliminateYn(u) == u;
  }

  lemma ExtractOne(op: Op, x: Expr, y: Expr)
    requires x.Not? && y.Not? && x.e.Sym? && y.e.Sym? && x != y
    ensures Extract(op, Make(op, x, y), x).e1 == y && Extract(op, Make(op, x, y), y).e1 == x
  {
    var u := Unit(op);
    Different(op, x, y);
    hide ExprEq;
    assert ExtractEq(op, None, x, x) == Extraction(Some(x), u, u);
    assert ExtractEq(op, Some(x), y, u) == Extraction(Some(x), y, u);
    assert ExtractEq(op, None, x, y) == Extraction(None, x, y);
    assert ExtractEq(op, None, y, y) == Extraction(Some(y), u, u);
    assert EliminateYn(x) == x && EliminateYn(y) == y;
  }
}
