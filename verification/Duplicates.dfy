/** expr_eliminate_dups1, expr_eliminate_dups2 and expr_eliminate_dups of expr.c.  Both passes run
    over two pointers into one tree; a pointer is modelled as the path that leads to it from
    the root of the tree through nodes of the operator being processed. */
module Duplicates {
  import opened Kconfig
  import opened Lists
  import opened Normalise
  import opened Simplify

  datatype Path = Here | Left(rest: Path) | Right(rest: Path)

  predicate OnSpine(op: Op, t: Expr, p: Path)
  {
    p.Here? || (Is(t, op) && if p.Left? then OnSpine(op, t.l, p.rest) else OnSpine(op, t.r, p.rest))
  }

  function At(op: Op, t: Expr, p: Path): (e: Expr)
    requires OnSpine(op, t, p)
    ensures Size(e) <= Size(t) && (p != Here ==> Size(e) < Size(t))
  {
    match p
    case Here => t
    case Left(q) => At(op, t.l, q)
    case Right(q) => At(op, t.r, q)
  }

  function Put(op: Op, t: Expr, p: Path, x: Expr): (r: Expr)
    requires OnSpine(op, t, p)
    ensures Size(r) == Size(t) - Size(At(op, t, p)) + Size(x)
  {
    match p
    case Here => x
    case Left(q) => Make(op, Put(op, t.l, q, x), t.r)
    case Right(q) => Make(op, t.l, Put(op, t.r, q, x))
  }

  function Child(p: Path, left: bool): Path
  {
    match p
    case Here => if left then Left(Here) else Right(Here)
    case Left(q) => Left(Child(q, left))
    case Right(q) => Right(Child(q, left))
  }

  /** The number of op nodes at the top of t. */
  function Spine(op: Op, t: Expr): nat
  {
    if Is(t, op) then 1 + Spine(op, t.l) + Spine(op, t.r) else 0
  }

  /** The op nodes at the top of the two trees are the same. */
  predicate SameSpine(op: Op, t: Expr, t': Expr)
  {
    if Is(t, op) then Is(t', op) && SameSpine(op, t.l, t'.l) && SameSpine(op, t.r, t'.r) else !Is(t', op)
  }

  lemma {:induction false} SpineRefl(op: Op, t: Expr)
    ensures SameSpine(op, t, t)
  {
    if Is(t, op) {
      SpineRefl(op, t.l);
      SpineRefl(op, t.r);
    }
  }

  lemma {:induction false} SpineTrans(op: Op, t: Expr, t': Expr, t'': Expr)
    requires SameSpine(op, t, t') && SameSpine(op, t', t'')
    ensures SameSpine(op, t, t'')
  {
    if Is(t, op) {
      SpineTrans(op, t.l, t'.l, t''.l);
      SpineTrans(op, t.r, t'.r, t''.r);
    }
  }

  /** Trees with the same spine have the same paths, to nodes with the same spine. */
  lemma {:induction false} SpinePath(op: Op, t: Expr, t': Expr, p: Path)
    requires SameSpine(op, t, t') && OnSpine(op, t, p)
    ensures OnSpine(op, t', p) && SameSpine(op, At(op, t, p), At(op, t', p))
    ensures Spine(op, At(op, t, p)) == Spine(op, At(op, t', p))
    decreases p
  {
    match p
    case Here => SpineCount(op, t, t');
    case Left(q) => SpinePath(op, t.l, t'.l, q);
    case Right(q) => SpinePath(op, t.r, t'.r, q);
  }

  lemma {:induction false} SpineCount(op: Op, t: Expr, t': Expr)
    requires SameSpine(op, t, t')
    ensures Spine(op, t) == Spine(op, t')
  {
    if Is(t, op) {
      SpineCount(op, t.l, t'.l);
      SpineCount(op, t.r, t'.r);
    }
  }

  lemma {:induction false} ChildPath(op: Op, t: Expr, p: Path, left: bool)
    requires OnSpine(op, t, p) && Is(At(op, t, p), op)
    ensures OnSpine(op, t, Child(p, left))
    ensures At(op, t, Child(p, left)) == if left then At(op, t, p).l else At(op, t, p).r
    ensures Spine(op, At(op, t, Child(p, left))) < Spine(op, At(op, t, p))
    decreases p
  {
    match p
    case Here =>
    case Left(q) => ChildPath(op, t.l, q, left);
    case Right(q) => ChildPath(op, t.r, q, left);
  }

  /** Replacing one leaf by another keeps the spine. */
  lemma {:induction false} PutSpine(op: Op, t: Expr, p: Path, x: Expr)
    requires OnSpine(op, t, p) && SameSpine(op, At(op, t, p), x)
    ensures SameSpine(op, t, Put(op, t, p, x)) && OnSpine(op, Put(op, t, p, x), p)
    ensures At(op, Put(op, t, p, x), p) == x
    decreases p
  {
    match p
    case Here =>
    case Left(q) => PutSpine(op, t.l, q, x); SpineRefl(op, t.r);
    case Right(q) => PutSpine(op, t.r, q, x); SpineRefl(op, t.l);
  }

  lemma {:induction false} PutSame(op: Op, t: Expr, p: Path)
    requires OnSpine(op, t, p)
    ensures Put(op, t, p, At(op, t, p)) == t
    decreases p
  {
    match p
    case Here =>
    case Left(q) => PutSame(op, t.l, q);
    case Right(q) => PutSame(op, t.r, q);
  }

  /** Replacing one leaf leaves the others alone. */
  lemma {:induction false} PutOther(op: Op, t: Expr, p: Path, x: Expr, q: Path)
    requires OnSpine(op, t, p) && !Is(At(op, t, p), op)
    requires OnSpine(op, t, q) && !Is(At(op, t, q), op) && p != q
    ensures OnSpine(op, Put(op, t, p, x), q) && At(op, Put(op, t, p, x), q) == At(op, t, q)
    decreases p
  {
    match p
    case Here =>
    case Left(p') => if q.Left? { PutOther(op, t.l, p', x, q.rest); }
    case Right(p') => if q.Right? { PutOther(op, t.r, p', x, q.rest); }
  }

  /** The value of all operands of t but the one at p. */
  function Context(env: Env, op: Op, t: Expr, p: Path): tri
    requires OnSpine(op, t, p)
  {
    match p
    case Here => UnitValue(op)
    case Left(q) => Apply(op, Context(env, op, t.l, q), Value(env, t.r))
    case Right(q) => Apply(op, Value(env, t.l), Context(env, op, t.r, q))
  }

  lemma Commutes(op: Op, x: tri, y: tri, z: tri)
    ensures Apply(op, Apply(op, x, y), z) == Apply(op, Apply(op, x, z), y)
  {
  }

  lemma {:induction false} PutValue(env: Env, op: Op, t: Expr, p: Path, x: Expr)
    requires OnSpine(op, t, p)
    ensures Value(env, Put(op, t, p, x)) == Apply(op, Context(env, op, t, p), Value(env, x))
    decreases p
  {
    hide TriOf, StringOf, Value, Size, Apply;
    match p
    case Here => Associates(op, Value(env, x), UnitValue(op), UnitValue(op));
    case Left(q) =>
      PutValue(env, op, t.l, q, x);
      MakeValue(env, op, Put(op, t.l, q, x), t.r);
      Commutes(op, Context(env, op, t.l, q), Value(env, t.r), Value(env, x));
    case Right(q) =>
      PutValue(env, op, t.r, q, x);
      MakeValue(env, op, t.l, Put(op, t.r, q, x));
      Associates(op, Value(env, t.l), Context(env, op, t.r, q), Value(env, x));
  }

  lemma AtValue(env: Env, op: Op, t: Expr, p: Path)
    requires OnSpine(op, t, p)
    ensures Value(env, t) == Apply(op, Context(env, op, t, p), Value(env, At(op, t, p)))
  {
    PutSame(op, t, p);
    PutValue(env, op, t, p, At(op, t, p));
  }

  lemma {:induction false} PutFoldable(op: Op, t: Expr, p: Path, x: Expr)
    requires OnSpine(op, t, p) && p != Here && (IsYesNo(x) || Foldable(x))
    ensures Foldable(Put(op, t, p, x))
    decreases p
  {
    match p
    case Left(q) => if q != Here { PutFoldable(op, t.l, q, x); }
    case Right(q) => if q != Here { PutFoldable(op, t.r, q, x); }
  }

  // ---------- expr_eliminate_dups1 ----------

  /** A tree and trans_count. */
  datatype State = State(t: Expr, count: nat)

  /** What both passes guarantee: the spine stays, nothing grows, and a counted rewrite leaves a
      constant for expr_eliminate_yn to remove. */
  predicate Progress(op: Op, t: Expr, count: nat, s: State)
  {
    && SameSpine(op, t, s.t) && Size(s.t) <= Size(t) && count <= s.count
    && (s.count == count ==> s.t == t) && (s.count > count ==> Foldable(s.t))
  }

  /** The first operand after its own duplicates are gone. */
  predicate LeafProgress(op: Op, e1: Expr, count: nat, a: State)
  {
    && !Is(a.t, op) && Size(a.t) <= Size(e1) && count <= a.count
    && (a.count == count ==> a.t == e1) && (a.count > count ==> Foldable(a.t))
  }

  predicate Leaves(op: Op, t: Expr, p1: Path, p2: Path)
  {
    && OnSpine(op, t, p1) && OnSpine(op, t, p2) && p1 != p2
    && !Is(At(op, t, p1), op) && !Is(At(op, t, p2), op)
  }

  /** Storing another operand at p1. */
  lemma PutLeaf(op: Op, t: Expr, p1: Path, p2: Path, x: Expr)
    requires Leaves(op, t, p1, p2) && !Is(x, op)
    ensures var u := Put(op, t, p1, x);
            && Leaves(op, u, p1, p2) && At(op, u, p1) == x && At(op, u, p2) == At(op, t, p2)
            && SameSpine(op, t, u)
  {
    hide Size;
    PutSpine(op, t, p1, x);
    PutOther(op, t, p1, x, p2);
  }

  lemma PutLeafSize(op: Op, t: Expr, p1: Path, x: Expr)
    requires OnSpine(op, t, p1)
    ensures Size(Put(op, t, p1, x)) == Size(t) - Size(At(op, t, p1)) + Size(x)
  {
  }

  lemma BelowRoot(op: Op, t: Expr, p1: Path, p2: Path)
    requires Leaves(op, t, p1, p2)
    ensures p1 != Here && p2 != Here && Leaves(op, t, p2, p1)
  {
  }

  lemma SmallerLeaf(op: Op, t: Expr, p1: Path, p2: Path)
    requires Leaves(op, t, p1, p2)
    ensures Size(At(op, t, p1)) < Size(t)
  {
  }

  lemma UnitLeaf(op: Op)
    ensures !Is(Unit(op), op) && Size(Unit(op)) == 1 && IsYesNo(Unit(op))
  {
  }

  lemma LeafFoldable(op: Op, t: Expr, p1: Path)
    requires OnSpine(op, t, p1) && p1 != Here && IsYesNo(At(op, t, p1))
    ensures Foldable(t)
  {
    hide Foldable, Size;
    PutSame(op, t, p1);
    PutFoldable(op, t, p1, At(op, t, p1));
  }

  /** Store the simplified first operand and try to join it with the second one. */
  function JoinAt(op: Op, t: Expr, p1: Path, p2: Path, a: State): State
    requires Leaves(op, t, p1, p2) && !Is(a.t, op)
  {
    PutLeaf(op, t, p1, p2, a.t);
    var u := Put(op, t, p1, a.t);
    match Join(op, a.t, At(op, u, p2))
    case None => State(u, a.count)
    case Some(j) => State(Replace(op, u, p1, p2, j), a.count + 1)
  }

  /** The joined operand at p2, a constant at p1. */
  function Replace(op: Op, u: Expr, p1: Path, p2: Path, j: Expr): Expr
    requires Leaves(op, u, p1, p2)
  {
    UnitLeaf(op);
    PutLeaf(op, u, p1, p2, Unit(op));
    Put(op, Put(op, u, p1, Unit(op)), p2, j)
  }

  lemma ReplaceProgress(op: Op, u: Expr, p1: Path, p2: Path, j: Expr)
    requires Leaves(op, u, p1, p2) && !Is(j, op)
    requires Size(j) + 1 <= Size(At(op, u, p1)) + Size(At(op, u, p2))
    ensures var r := Replace(op, u, p1, p2, j); SameSpine(op, u, r) && Size(r) <= Size(u) && Foldable(r)
  {
    hide Size, Foldable, OnSpine, At, Put, SameSpine, Is;
    UnitLeaf(op);
    PutLeaf(op, u, p1, p2, Unit(op));
    PutLeafSize(op, u, p1, Unit(op));
    var w := Put(op, u, p1, Unit(op));
    BelowRoot(op, w, p1, p2);
    PutLeaf(op, w, p2, p1, j);
    PutLeafSize(op, w, p2, j);
    var r := Put(op, w, p2, j);
    SpineTrans(op, u, w, r);
    LeafFoldable(op, r, p1);
  }

  lemma ReplaceKeepsValue(env: Env, op: Op, u: Expr, p1: Path, p2: Path, j: Expr)
    requires Leaves(op, u, p1, p2)
    requires Value(env, j) == Apply(op, Value(env, At(op, u, p1)), Value(env, At(op, u, p2)))
    ensures Value(env, Replace(op, u, p1, p2, j)) == Value(env, u)
  {
    hide Value, Size, OnSpine, At, Put, SameSpine, Is, Context, Apply;
    UnitLeaf(op);
    PutLeaf(op, u, p1, p2, Unit(op));
    var w := Put(op, u, p1, Unit(op));
    ConstantValues(env);
    AtValue(env, op, u, p1);
    PutValue(env, op, u, p1, Unit(op));
    AtValue(env, op, w, p2);
    PutValue(env, op, w, p2, j);
    Moved(op, Context(env, op, u, p1), Context(env, op, w, p2), Value(env, At(op, u, p1)), Value(env, At(op, u, p2)));
  }

  lemma Moved(op: Op, c: tri, d: tri, x: tri, y: tri)
    requires Apply(op, c, UnitValue(op)) == Apply(op, d, y)
    ensures Apply(op, d, Apply(op, x, y)) == Apply(op, c, x)
  {
  }

  lemma JoinAtProgress(op: Op, t: Expr, p1: Path, p2: Path, count: nat, a: State)
    requires Leaves(op, t, p1, p2) && LeafProgress(op, At(op, t, p1), count, a)
    ensures Progress(op, t, count, JoinAt(op, t, p1, p2, a))
  {
    hide Join, Foldable, Size, OnSpine, At, Put, SameSpine, Is, Replace;
    BelowRoot(op, t, p1, p2);
    PutLeaf(op, t, p1, p2, a.t);
    PutLeafSize(op, t, p1, a.t);
    var u := Put(op, t, p1, a.t);
    match Join(op, a.t, At(op, u, p2))
    case None =>
      if a.count == count { PutSame(op, t, p1); } else { PutFoldable(op, t, p1, a.t); }
    case Some(j) =>
      JoinShape(op, a.t, At(op, u, p2));
      ReplaceProgress(op, u, p1, p2, j);
      SpineTrans(op, t, u, Replace(op, u, p1, p2, j));
  }

  lemma JoinAtKeepsValue(env: Env, op: Op, t: Expr, p1: Path, p2: Path, a: State)
    requires Leaves(op, t, p1, p2) && !Is(a.t, op) && Value(env, a.t) == Value(env, At(op, t, p1))
    ensures Value(env, JoinAt(op, t, p1, p2, a).t) == Value(env, t)
  {
    hide Join, Value, Size, OnSpine, At, Put, SameSpine, Is, Context, Replace;
    PutLeaf(op, t, p1, p2, a.t);
    PutValue(env, op, t, p1, a.t);
    AtValue(env, op, t, p1);
    var u := Put(op, t, p1, a.t);
    match Join(op, a.t, At(op, u, p2))
    case None =>
    case Some(j) =>
      JoinSound(env, op, a.t, At(op, u, p2));
      ReplaceKeepsValue(env, op, u, p1, p2, j);
  }

  lemma InnerLeaf(op: Op, e1: Expr, count: nat, a: State)
    requires !Is(e1, op) && if IsJunction(e1) then Progress(OpOf(e1), e1, count, a) else a == State(e1, count)
    ensures LeafProgress(op, e1, count, a)
  {
  }

  lemma Root(op: Op, t: Expr)
    ensures OnSpine(op, t, Here) && At(op, t, Here) == t
  {
  }

  /** An operand of the node at p, seen with the other pointer at q. */
  lemma Operand(op: Op, t: Expr, t': Expr, p: Path, q: Path, left: bool)
    requires OnSpine(op, t, p) && OnSpine(op, t, q) && Is(At(op, t, p), op) && SameSpine(op, t, t')
    ensures OnSpine(op, t', Child(p, left)) && OnSpine(op, t', q)
    ensures Rank(op, t', Child(p, left), q) < Rank(op, t, p, q)
    ensures Rank(op, t', q, Child(p, left)) < Rank(op, t, q, p)
  {
    hide OnSpine, At, SameSpine, Child, Spine, Is, Size;
    ChildPath(op, t, p, left);
    SpinePath(op, t, t', Child(p, left));
    SpinePath(op, t, t', q);
  }

  /** How many op nodes the two pointers still have below them. */
  function Rank(op: Op, t: Expr, p1: Path, p2: Path): nat
    requires OnSpine(op, t, p1) && OnSpine(op, t, p2)
  {
    Spine(op, At(op, t, p1)) + Spine(op, At(op, t, p2))
  }

  function Dups1(op: Op, t: Expr, p1: Path, p2: Path, count: nat): (s: State)
    requires OnSpine(op, t, p1) && OnSpine(op, t, p2)
    ensures Progress(op, t, count, s)
    decreases Size(t), Rank(op, t, p1, p2)
  {
    if Is(At(op, t, p1), op) then
      SpineRefl(op, t);
      Operand(op, t, t, p1, p2, true);
      var a := Dups1(op, t, Child(p1, true), p2, count);
      Operand(op, t, a.t, p1, p2, false);
      var b := Dups1(op, a.t, Child(p1, false), p2, a.count);
      SpineTrans(op, t, a.t, b.t);
      b
    else if Is(At(op, t, p2), op) then
      SpineRefl(op, t);
      Operand(op, t, t, p2, p1, true);
      var a := Dups1(op, t, p1, Child(p2, true), count);
      Operand(op, t, a.t, p2, p1, false);
      var b := Dups1(op, a.t, p1, Child(p2, false), a.count);
      SpineTrans(op, t, a.t, b.t);
      b
    else if p1 == p2 then
      SpineRefl(op, t);
      State(t, count)
    else
      var e1 := At(op, t, p1);
      var a := if IsJunction(e1) then Dups1(OpOf(e1), e1, Here, Here, count) else State(e1, count);
      InnerLeaf(op, e1, count, a);
      JoinAtProgress(op, t, p1, p2, count, a);
      JoinAt(op, t, p1, p2, a)
  }

  /** expr_eliminate_dups1 keeps the value under every assignment. */
  lemma {:induction false} Dups1KeepsValue(env: Env, op: Op, t: Expr, p1: Path, p2: Path, count: nat)
    requires OnSpine(op, t, p1) && OnSpine(op, t, p2)
    ensures Value(env, Dups1(op, t, p1, p2, count).t) == Value(env, t)
    decreases Size(t), 1, Rank(op, t, p1, p2)
  {
    hide Value, JoinAt, OnSpine, At, SameSpine, Child, Size, Is, Rank;
    if Is(At(op, t, p1), op) {
      SpineRefl(op, t);
      Operand(op, t, t, p1, p2, true);
      var a := Dups1(op, t, Child(p1, true), p2, count);
      Operand(op, t, a.t, p1, p2, false);
      Dups1KeepsValue(env, op, t, Child(p1, true), p2, count);
      Dups1KeepsValue(env, op, a.t, Child(p1, false), p2, a.count);
    } else if Is(At(op, t, p2), op) {
      SpineRefl(op, t);
      Operand(op, t, t, p2, p1, true);
      var a := Dups1(op, t, p1, Child(p2, true), count);
      Operand(op, t, a.t, p2, p1, false);
      Dups1KeepsValue(env, op, t, p1, Child(p2, true), count);
      Dups1KeepsValue(env, op, a.t, p1, Child(p2, false), a.count);
    } else if p1 != p2 {
      Dups1LeafKeepsValue(env, op, t, p1, p2, count);
    }
  }

  lemma {:induction false} Dups1LeafKeepsValue(env: Env, op: Op, t: Expr, p1: Path, p2: Path, count: nat)
    requires Leaves(op, t, p1, p2)
    ensures Value(env, Dups1(op, t, p1, p2, count).t) == Value(env, t)
    decreases Size(t), 0
  {
    hide Value, JoinAt, OnSpine, At, SameSpine;
    var e1 := At(op, t, p1);
    Root(OpOf(e1), e1);
    SmallerLeaf(op, t, p1, p2);
    var a := if IsJunction(e1) then Dups1(OpOf(e1), e1, Here, Here, count) else State(e1, count);
    if IsJunction(e1) { Dups1KeepsValue(env, OpOf(e1), e1, Here, Here, count); }
    InnerLeaf(op, e1, count, a);
    JoinAtKeepsValue(env, op, t, p1, p2, a);
  }

  /** q leads through p. */
  predicate Below(p: Path, q: Path)
  {
    match p
    case Here => true
    case Left(r) => q.Left? && Below(r, q.rest)
    case Right(r) => q.Right? && Below(r, q.rest)
  }

  lemma {:induction false} BelowChild(op: Op, t: Expr, p: Path, q: Path)
    requires OnSpine(op, t, p) && OnSpine(op, t, q) && Below(p, q) && Is(At(op, t, p), op) && !Is(At(op, t, q), op)
    ensures Below(Child(p, true), q) || Below(Child(p, false), q)
    decreases p
  {
    match p
    case Here =>
    case Left(r) => BelowChild(op, t.l, r, q.rest);
    case Right(r) => BelowChild(op, t.r, r, q.rest);
  }

  lemma {:induction false} BelowLeaf(op: Op, t: Expr, p: Path, q: Path)
    requires OnSpine(op, t, p) && OnSpine(op, t, q) && Below(p, q) && !Is(At(op, t, p), op)
    ensures q == p
    decreases p
  {
    match p
    case Here =>
    case Left(r) => BelowLeaf(op, t.l, r, q.rest);
    case Right(r) => BelowLeaf(op, t.r, r, q.rest);
  }

  /** A pass that counts nothing has tried every pair of different operands below p1 and p2. */
  lemma {:induction false} Dups1Complete(op: Op, t: Expr, p1: Path, p2: Path, count: nat, q1: Path, q2: Path)
    requires OnSpine(op, t, p1) && OnSpine(op, t, p2) && Dups1(op, t, p1, p2, count).count == count
    requires Leaves(op, t, q1, q2) && Below(p1, q1) && Below(p2, q2)
    ensures Join(op, At(op, t, q1), At(op, t, q2)).None?
    decreases Rank(op, t, p1, p2)
  {
    hide OnSpine, At, SameSpine, Child, Size, Is, Rank, Join, Below, JoinAt;
    if Is(At(op, t, p1), op) {
      SpineRefl(op, t);
      Operand(op, t, t, p1, p2, true);
      Operand(op, t, t, p1, p2, false);
      BelowChild(op, t, p1, q1);
      if Below(Child(p1, true), q1) {
        Dups1Complete(op, t, Child(p1, true), p2, count, q1, q2);
      } else {
        Dups1Complete(op, t, Child(p1, false), p2, count, q1, q2);
      }
    } else if Is(At(op, t, p2), op) {
      SpineRefl(op, t);
      Operand(op, t, t, p2, p1, true);
      Operand(op, t, t, p2, p1, false);
      BelowChild(op, t, p2, q2);
      if Below(Child(p2, true), q2) {
        Dups1Complete(op, t, p1, Child(p2, true), count, q1, q2);
      } else {
        Dups1Complete(op, t, p1, Child(p2, false), count, q1, q2);
      }
    } else {
      BelowLeaf(op, t, p1, q1);
      BelowLeaf(op, t, p2, q2);
      NoJoinAt(op, t, p1, p2, count);
    }
  }

  lemma NoJoinAt(op: Op, t: Expr, p1: Path, p2: Path, count: nat)
    requires Leaves(op, t, p1, p2) && Dups1(op, t, p1, p2, count).count == count
    ensures Join(op, At(op, t, p1), At(op, t, p2)).None?
  {
    hide SameSpine, Size, Join, Put, Replace;
    var e1 := At(op, t, p1);
    var a := if IsJunction(e1) then Dups1(OpOf(e1), e1, Here, Here, count) else State(e1, count);
    InnerLeaf(op, e1, count, a);
    PutSame(op, t, p1);
  }

  lemma {:induction false} BelowParent(p: Path, left: bool, q: Path)
    requires Below(Child(p, left), q)
    ensures Below(p, q)
  {
    match p
    case Here =>
    case Left(r) => BelowParent(r, left, q.rest);
    case Right(r) => BelowParent(r, left, q.rest);
  }

  /** The pass changes nothing inside e. */
  ghost predicate Quiet(e: Expr)
  {
    IsJunction(e) ==> forall count :: Dups1(OpOf(e), e, Here, Here, count) == State(e, count)
  }

  /** No operand below p1 can be joined with another one below p2, nor changed by itself. */
  ghost predicate QuietPair(op: Op, t: Expr, p1: Path, p2: Path)
  {
    forall q1, q2 | Leaves(op, t, q1, q2) && Below(p1, q1) && Below(p2, q2) ::
      Join(op, At(op, t, q1), At(op, t, q2)).None? && Quiet(At(op, t, q1))
  }

  lemma QuietChild(op: Op, t: Expr, p1: Path, p2: Path, left: bool)
    requires QuietPair(op, t, p1, p2)
    ensures QuietPair(op, t, Child(p1, left), p2) && QuietPair(op, t, p1, Child(p2, left))
  {
    hide Leaves, At, Join, Quiet, Below, Child;
    forall q1 | Below(Child(p1, left), q1) ensures Below(p1, q1) { BelowParent(p1, left, q1); }
    forall q2 | Below(Child(p2, left), q2) ensures Below(p2, q2) { BelowParent(p2, left, q2); }
  }

  /** Then the pass counts nothing. */
  lemma {:induction false} Dups1Idle(op: Op, t: Expr, p1: Path, p2: Path, count: nat)
    requires OnSpine(op, t, p1) && OnSpine(op, t, p2) && QuietPair(op, t, p1, p2)
    ensures Dups1(op, t, p1, p2, count) == State(t, count)
    decreases Rank(op, t, p1, p2)
  {
    hide OnSpine, At, SameSpine, Child, Size, Is, Rank, JoinAt, QuietPair;
    SpineRefl(op, t);
    QuietChild(op, t, p1, p2, true);
    QuietChild(op, t, p1, p2, false);
    if Is(At(op, t, p1), op) {
      Operand(op, t, t, p1, p2, true);
      Operand(op, t, t, p1, p2, false);
      Dups1Idle(op, t, Child(p1, true), p2, count);
      Dups1Idle(op, t, Child(p1, false), p2, count);
    } else if Is(At(op, t, p2), op) {
      Operand(op, t, t, p2, p1, true);
      Operand(op, t, t, p2, p1, false);
      Dups1Idle(op, t, p1, Child(p2, true), count);
      Dups1Idle(op, t, p1, Child(p2, false), count);
    } else if p1 != p2 {
      IdleAt(op, t, p1, p2, count);
    }
  }

  lemma {:induction false} BelowSelf(p: Path)
    ensures Below(p, p)
  {
    match p
    case Here =>
    case Left(r) => BelowSelf(r);
    case Right(r) => BelowSelf(r);
  }

  lemma IdleAt(op: Op, t: Expr, p1: Path, p2: Path, count: nat)
    requires Leaves(op, t, p1, p2) && QuietPair(op, t, p1, p2)
    ensures Dups1(op, t, p1, p2, count) == State(t, count)
  {
    hide SameSpine, Size, Join, Put, Replace, At, OnSpine, Is, Below;
    BelowSelf(p1);
    BelowSelf(p2);
    var e1 := At(op, t, p1);
    InnerLeaf(op, e1, count, State(e1, count));
    PutSame(op, t, p1);
  }

  // ---------- expr_eliminate_dups2 ----------

  predicate FirstIsLeaf(op: Op, t: Expr, p1: Path, p2: Path)
  {
    OnSpine(op, t, p1) && OnSpine(op, t, p2) && p1 != p2 && !Is(At(op, t, p1), op)
  }

  lemma FirstBelowRoot(op: Op, t: Expr, p1: Path, p2: Path)
    requires FirstIsLeaf(op, t, p1, p2)
    ensures p1 != Here && Size(At(op, t, p1)) < Size(t)
  {
  }

  /** The pair of pointers is still good in a tree with the same spine. */
  lemma FirstStaysLeaf(op: Op, t: Expr, t': Expr, p1: Path, p2: Path)
    requires FirstIsLeaf(op, t, p1, p2) && SameSpine(op, t, t')
    ensures FirstIsLeaf(op, t', p1, p2)
  {
    SpinePath(op, t, t', p1);
    SpinePath(op, t, t', p2);
  }

  lemma PutFirst(op: Op, t: Expr, p1: Path, p2: Path, x: Expr)
    requires FirstIsLeaf(op, t, p1, p2) && !Is(x, op)
    ensures var u := Put(op, t, p1, x);
            FirstIsLeaf(op, u, p1, p2) && At(op, u, p1) == x && SameSpine(op, t, u)
  {
    hide Size;
    PutSpine(op, t, p1, x);
    FirstStaysLeaf(op, t, Put(op, t, p1, x), p1, p2);
  }

  /** The constant that absorbs: n for AND, y for OR. */
  function Absorber(op: Op): Expr
  {
    if op == OrOp then Sym(SYMBOL_YES) else Sym(SYMBOL_NO)
  }

  /** Store the simplified first operand; if every operand of its negation occurs in the second
      one, the two contradict each other and the first one becomes the absorbing constant. */
  function Contradict(op: Op, t: Expr, p1: Path, p2: Path, b: State): State
    requires FirstIsLeaf(op, t, p1, p2) && !Is(b.t, op)
  {
    PutFirst(op, t, p1, p2, b.t);
    var u := Put(op, t, p1, b.t);
    var x := Extract(op, Transform(Not(b.t)), At(op, u, p2));
    if x.e1 == Unit(op) then State(Put(op, u, p1, Absorber(op)), b.count + 1) else State(u, b.count)
  }

  lemma ContradictProgress(op: Op, t: Expr, p1: Path, p2: Path, count: nat, b: State)
    requires FirstIsLeaf(op, t, p1, p2) && LeafProgress(op, At(op, t, p1), count, b)
    ensures Progress(op, t, count, Contradict(op, t, p1, p2, b))
  {
    hide Extract, Transform, Foldable, Size, OnSpine, At, Put, SameSpine, Is;
    FirstBelowRoot(op, t, p1, p2);
    PutFirst(op, t, p1, p2, b.t);
    PutLeafSize(op, t, p1, b.t);
    AbsorberLeaf(op);
    var u := Put(op, t, p1, b.t);
    PutFirst(op, u, p1, p2, Absorber(op));
    PutLeafSize(op, u, p1, Absorber(op));
    PutFoldable(op, u, p1, Absorber(op));
    SpineTrans(op, t, u, Put(op, u, p1, Absorber(op)));
    if b.count == count { PutSame(op, t, p1); } else { PutFoldable(op, t, p1, b.t); }
  }

  lemma AbsorberLeaf(op: Op)
    ensures !Is(Absorber(op), op) && IsYesNo(Absorber(op)) && forall e :: Size(Absorber(op)) <= Size(e)
  {
  }

  /** A rewrite may change the value only where it is m. */
  predicate Keeps(x: tri, y: tri)
  {
    x == 1 || y == x
  }

  lemma KeepsInContext(op: Op, c: tri, x: tri, y: tri)
    requires Keeps(x, y)
    ensures Keeps(Apply(op, c, x), Apply(op, c, y))
  {
  }

  lemma ContradictKeeps(env: Env, op: Op, t: Expr, p1: Path, p2: Path, b: State)
    requires FirstIsLeaf(op, t, p1, p2) && !Is(b.t, op) && Keeps(Value(env, At(op, t, p1)), Value(env, b.t))
    ensures Keeps(Value(env, t), Value(env, Contradict(op, t, p1, p2, b).t))
  {
    hide Extract, Transform, Value, Size, OnSpine, At, Put, SameSpine, Is, Context, Apply, CommonValue, Factors, Unit, UnitValue;
    PutFirst(op, t, p1, p2, b.t);
    PutValue(env, op, t, p1, b.t);
    AtValue(env, op, t, p1);
    KeepsInContext(op, Context(env, op, t, p1), Value(env, At(op, t, p1)), Value(env, b.t));
    var u := Put(op, t, p1, b.t);
    var e2 := At(op, u, p2);
    var x := Extract(op, Transform(Not(b.t)), e2);
    if x.e1 == Unit(op) {
      UnitHasValue(env, op);
      ExtractFactors(env, op, Transform(Not(b.t)), e2);
      TransformKeepsValue(env, Not(b.t));
      NotValue(env, b.t);
      AllExtracted(op, CommonValue(env, op, x.common), 2 - Value(env, b.t), Value(env, e2), Value(env, x.e2));
      AtValue(env, op, u, p1);
      AtValue(env, op, u, p2);
      PutValue(env, op, u, p1, Absorber(op));
      Absorbed(env, op, Context(env, op, u, p1), Context(env, op, u, p2), Value(env, b.t), Value(env, e2));
    }
  }

  /** If all of the negation of the first operand is extracted, the second one is at least as strong. */
  lemma AllExtracted(op: Op, c: tri, x: tri, y: tri, y': tri)
    requires Factors(op, c, x, UnitValue(op), y, y')
    ensures y == Apply(op, x, y)
  {
  }

  lemma NotValue(env: Env, e: Expr)
    ensures Value(env, Not(e)) == 2 - Value(env, e)
  {
  }

  lemma Absorbed(env: Env, op: Op, c: tri, d: tri, x: tri, y: tri)
    requires y == Apply(op, 2 - x, y) && Apply(op, c, x) == Apply(op, d, y)
    ensures Keeps(Apply(op, c, x), Apply(op, c, Value(env, Absorber(op))))
  {
    ConstantValues(env);
  }

  /** After the calls for the operands of the node at p2 the source goes on with the node itself. */
  function Dups2(op: Op, t: Expr, p1: Path, p2: Path, count: nat): (s: State)
    requires OnSpine(op, t, p1) && OnSpine(op, t, p2)
    ensures Progress(op, t, count, s)
    decreases Size(t), 1, Rank(op, t, p1, p2)
  {
    if Is(At(op, t, p1), op) then
      SpineRefl(op, t);
      Operand(op, t, t, p1, p2, true);
      var a := Dups2(op, t, Child(p1, true), p2, count);
      Operand(op, t, a.t, p1, p2, false);
      var b := Dups2(op, a.t, Child(p1, false), p2, a.count);
      SpineTrans(op, t, a.t, b.t);
      b
    else if p1 == p2 then
      SpineRefl(op, t);
      State(t, count)
    else if Is(At(op, t, p2), op) then
      var a := Dups2Operands(op, t, p1, p2, count);
      FirstStaysLeaf(op, t, a.t, p1, p2);
      var s := Dups2Pair(op, a.t, p1, p2, a.count);
      SpineTrans(op, t, a.t, s.t);
      s
    else Dups2Pair(op, t, p1, p2, count)
  }

  /** The work on one operand at p1 and the node at p2. */
  function Dups2Pair(op: Op, t: Expr, p1: Path, p2: Path, count: nat): (s: State)
    requires FirstIsLeaf(op, t, p1, p2)
    ensures Progress(op, t, count, s)
    decreases Size(t), 0
  {
    var e1 := At(op, t, p1);
    FirstBelowRoot(op, t, p1, p2);
    if IsJunction(e1) then
      var b := Dups2(OpOf(e1), e1, Here, Here, count);
      InnerLeaf(op, e1, count, b);
      ContradictProgress(op, t, p1, p2, count, b);
      Contradict(op, t, p1, p2, b)
    else
      SpineRefl(op, t);
      State(t, count)
  }

  /** The calls for the operands of the node at p2. */
  function Dups2Operands(op: Op, t: Expr, p1: Path, p2: Path, count: nat): (s: State)
    requires FirstIsLeaf(op, t, p1, p2) && Is(At(op, t, p2), op)
    ensures Progress(op, t, count, s)
    decreases Size(t), 1, Rank(op, t, p1, p2), 0
  {
    SpineRefl(op, t);
    Operand(op, t, t, p2, p1, true);
    var a := Dups2(op, t, p1, Child(p2, true), count);
    Operand(op, t, a.t, p2, p1, false);
    var b := Dups2(op, a.t, p1, Child(p2, false), a.count);
    SpineTrans(op, t, a.t, b.t);
    b
  }

  /** expr_eliminate_dups2 keeps every value but m, under every assignment. */
  lemma {:induction false} Dups2Keeps(env: Env, op: Op, t: Expr, p1: Path, p2: Path, count: nat)
    requires OnSpine(op, t, p1) && OnSpine(op, t, p2)
    ensures Keeps(Value(env, t), Value(env, Dups2(op, t, p1, p2, count).t))
    decreases Size(t), 1, Rank(op, t, p1, p2)
  {
    hide Value, OnSpine, At, SameSpine, Child, Size, Is, Rank, Dups2Pair, Dups2Operands;
    if Is(At(op, t, p1), op) {
      SpineRefl(op, t);
      Operand(op, t, t, p1, p2, true);
      var a := Dups2(op, t, Child(p1, true), p2, count);
      Operand(op, t, a.t, p1, p2, false);
      Dups2Keeps(env, op, t, Child(p1, true), p2, count);
      Dups2Keeps(env, op, a.t, Child(p1, false), p2, a.count);
    } else if p1 != p2 {
      if Is(At(op, t, p2), op) {
        var a := Dups2Operands(op, t, p1, p2, count);
        Dups2OperandsKeeps(env, op, t, p1, p2, count);
        FirstStaysLeaf(op, t, a.t, p1, p2);
        Dups2PairKeeps(env, op, a.t, p1, p2, a.count);
      } else {
        Dups2PairKeeps(env, op, t, p1, p2, count);
      }
    }
  }

  lemma {:induction false} Dups2PairKeeps(env: Env, op: Op, t: Expr, p1: Path, p2: Path, count: nat)
    requires FirstIsLeaf(op, t, p1, p2)
    ensures Keeps(Value(env, t), Value(env, Dups2Pair(op, t, p1, p2, count).t))
    decreases Size(t), 0
  {
    hide Value, OnSpine, At, SameSpine, Size, Contradict;
    var e1 := At(op, t, p1);
    FirstBelowRoot(op, t, p1, p2);
    if IsJunction(e1) {
      Root(OpOf(e1), e1);
      var b := Dups2(OpOf(e1), e1, Here, Here, count);
      Dups2Keeps(env, OpOf(e1), e1, Here, Here, count);
      InnerLeaf(op, e1, count, b);
      ContradictKeeps(env, op, t, p1, p2, b);
    }
  }

  lemma {:induction false} Dups2OperandsKeeps(env: Env, op: Op, t: Expr, p1: Path, p2: Path, count: nat)
    requires FirstIsLeaf(op, t, p1, p2) && Is(At(op, t, p2), op)
    ensures Keeps(Value(env, t), Value(env, Dups2Operands(op, t, p1, p2, count).t))
    decreases Size(t), 1, Rank(op, t, p1, p2), 0
  {
    hide Value, OnSpine, At, SameSpine, Child, Size, Is, Rank, Dups2;
    SpineRefl(op, t);
    Operand(op, t, t, p2, p1, true);
    var a := Dups2(op, t, p1, Child(p2, true), count);
    Operand(op, t, a.t, p2, p1, false);
    Dups2Keeps(env, op, t, p1, Child(p2, true), count);
    Dups2Keeps(env, op, a.t, p1, Child(p2, false), a.count);
  }

  /** No operand of e is a junction of the other operator. */
  predicate Plain(op: Op, e: Expr)
  {
    if Is(e, op) then Plain(op, e.l) && Plain(op, e.r) else !IsJunction(e)
  }

  lemma PlainChild(op: Op, t: Expr, p: Path, left: bool)
    requires OnSpine(op, t, p) && Is(At(op, t, p), op) && Plain(op, At(op, t, p))
    ensures OnSpine(op, t, Child(p, left)) && Plain(op, At(op, t, Child(p, left)))
  {
    ChildPath(op, t, p, left);
  }

  lemma PlainPair(op: Op, t: Expr, p1: Path, p2: Path, count: nat)
    requires FirstIsLeaf(op, t, p1, p2) && Plain(op, At(op, t, p1))
    ensures Dups2Pair(op, t, p1, p2, count) == State(t, count)
  {
  }

  /** Then expr_eliminate_dups2 has nothing to do for the operands of e. */
  lemma {:induction false} Dups2Idle(op: Op, t: Expr, p1: Path, p2: Path, count: nat)
    requires OnSpine(op, t, p1) && OnSpine(op, t, p2) && Plain(op, At(op, t, p1))
    ensures Dups2(op, t, p1, p2, count) == State(t, count)
    decreases Rank(op, t, p1, p2)
  {
    hide OnSpine, At, SameSpine, Child, Size, Rank, Dups2Pair, Dups2Operands, Is, Plain;
    if Is(At(op, t, p1), op) {
      SpineRefl(op, t);
      Operand(op, t, t, p1, p2, true);
      Operand(op, t, t, p1, p2, false);
      PlainChild(op, t, p1, true);
      PlainChild(op, t, p1, false);
      Dups2Idle(op, t, Child(p1, true), p2, count);
      Dups2Idle(op, t, Child(p1, false), p2, count);
    } else if p1 != p2 {
      PlainPair(op, t, p1, p2, count);
      if Is(At(op, t, p2), op) { OperandsIdle(op, t, p1, p2, count); }
    }
  }

  lemma {:induction false} OperandsIdle(op: Op, t: Expr, p1: Path, p2: Path, count: nat)
    requires FirstIsLeaf(op, t, p1, p2) && Is(At(op, t, p2), op) && Plain(op, At(op, t, p1))
    ensures Dups2Operands(op, t, p1, p2, count) == State(t, count)
    decreases Rank(op, t, p1, p2), 0
  {
    hide OnSpine, At, SameSpine, Child, Size, Rank, Dups2, Plain, Is;
    SpineRefl(op, t);
    Operand(op, t, t, p2, p1, true);
    Operand(op, t, t, p2, p1, false);
    Dups2Idle(op, t, p1, Child(p2, true), count);
    Dups2Idle(op, t, p1, Child(p2, false), count);
  }

  // ---------- expr_eliminate_dups ----------

  /** One round of both passes. */
  function Round(e: Expr): (s: State)
    ensures Size(s.t) <= Size(e) && (s.count == 0 ==> s.t == e) && (s.count > 0 ==> Foldable(s.t))
  {
    if !IsJunction(e) then State(e, 0)
    else
      var a := Dups1(OpOf(e), e, Here, Here, 0);
      Dups2(OpOf(e), a.t, Here, Here, a.count)
  }

  lemma RoundKeeps(env: Env, e: Expr)
    ensures Keeps(Value(env, e), Value(env, Round(e).t))
  {
    hide Value, Dups1, Dups2;
    if IsJunction(e) {
      var a := Dups1(OpOf(e), e, Here, Here, 0);
      Dups1KeepsValue(env, OpOf(e), e, Here, Here, 0);
      Dups2Keeps(env, OpOf(e), a.t, Here, Here, a.count);
    }
  }

  /** No two operands of t can be joined. */
  ghost predicate NoJoin(op: Op, t: Expr)
  {
    forall q1, q2 | Leaves(op, t, q1, q2) :: Join(op, At(op, t, q1), At(op, t, q2)).None?
  }

  lemma NothingJoins(e: Expr)
    requires Round(e).count == 0
    ensures IsJunction(e) ==> NoJoin(OpOf(e), e)
  {
    hide Dups1, Dups2, Join, At, OnSpine;
    if IsJunction(e) {
      var op := OpOf(e);
      Root(op, e);
      forall q1, q2 | Leaves(op, e, q1, q2)
        ensures Join(op, At(op, e, q1), At(op, e, q2)).None?
      {
        Dups1Complete(op, e, Here, Here, 0, q1, q2);
      }
    }
  }

  /** What the rounds of expr_eliminate_dups come to. */
  function Reduced(e: Expr): Expr
    decreases Size(e)
  {
    var s := Round(e);
    if s.count == 0 then e else EliminateYnShrinks(s.t); Reduced(EliminateYn(s.t))
  }

  /** expr_eliminate_dups: rounds until nothing is rewritten.  A value other than m is kept, no
      rewrite applies to the result, and no two of its operands can be joined. */
  method EliminateDups(e: Expr) returns (r: Expr)
    ensures forall env :: Value(env, e) != 1 ==> Value(env, r) == Value(env, e)
    ensures Round(r) == State(r, 0) && Size(r) <= Size(e) && r == Reduced(e)
    ensures IsJunction(r) ==> NoJoin(OpOf(r), r)
  {
    hide Value, Round, Foldable, NoJoin;
    r := e;
    while true
      invariant Size(r) <= Size(e) && Reduced(r) == Reduced(e)
      invariant forall env :: Keeps(Value(env, e), Value(env, r))
      decreases Size(r)
    {
      var s := Round(r);
      if s.count == 0 {
        NothingJoins(r);
        break;
      }
      EliminateYnShrinks(s.t);
      forall env
        ensures Keeps(Value(env, e), Value(env, EliminateYn(s.t)))
      {
        RoundKeeps(env, r);
        EliminateYnKeepsValue(env, s.t);
      }
      r := EliminateYn(s.t);
    }
  }

  /** No symbol that stands for itself holds m. */
  predicate NoMod(env: Env, e: Expr)
  {
    match e
    case Or(l, r) => NoMod(env, l) && NoMod(env, r)
    case And(l, r) => NoMod(env, l) && NoMod(env, r)
    case Not(x) => NoMod(env, x)
    case Sym(s) => TriOf(env, s) != 1
    case _ => true
  }

  /** Then the expression does not hold m, so expr_eliminate_dups keeps its value. */
  lemma {:induction false} NoModValue(env: Env, e: Expr)
    requires NoMod(env, e)
    ensures Value(env, e) != 1
  {
    match e
    case Or(l, r) => NoModValue(env, l); NoModValue(env, r);
    case And(l, r) => NoModValue(env, l); NoModValue(env, r);
    case Not(x) => NoModValue(env, x);
    case _ =>
  }
}
