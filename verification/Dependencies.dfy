/** Detection of recursive dependencies: sym_check_deps and sym_check_expr_deps of symbol.c. */
module Dependencies {
  import opened Kconfig
  import opened Lists

  datatype PropKind = Prompt | Default | Choice | Select | OtherKind

  datatype Property = Property(kind: PropKind, visible: Option<Expr>, expr: Option<Expr>)

  datatype SymbolInfo = SymbolInfo(revDep: Option<Expr>, props: seq<Property>, isChoice: bool)

  function ExprSymbols(e: Expr): set<Symbol>
  {
    match e
    case Or(l, r) => ExprSymbols(l) + ExprSymbols(r)
    case And(l, r) => ExprSymbols(l) + ExprSymbols(r)
    case Not(x) => ExprSymbols(x)
    case Equal(s, t) => {s, t}
    case Unequal(s, t) => {s, t}
    case Sym(s) => {s}
  }

  function Symbols(e: Option<Expr>): set<Symbol>
  {
    if e.Some? then ExprSymbols(e.value) else {}
  }

  /** The symbols a property depends on; choice and select properties are not followed, and the
      expression counts only for a default of a symbol that is not a choice. */
  function PropSymbols(p: Property, isChoice: bool): set<Symbol>
  {
    if p.kind == Choice || p.kind == Select then {}
    else Symbols(p.visible) + if p.kind == Default && !isChoice then Symbols(p.expr) else {}
  }

  function AllPropSymbols(ps: seq<Property>, isChoice: bool): set<Symbol>
  {
    if ps == [] then {} else AllPropSymbols(ps[..|ps| - 1], isChoice) + PropSymbols(ps[|ps| - 1], isChoice)
  }

  /** The dependency edges of a symbol. */
  function Edges(info: map<Symbol, SymbolInfo>, s: Symbol): set<Symbol>
  {
    if s in info then Symbols(info[s].revDep) + AllPropSymbols(info[s].props, info[s].isChoice) else {}
  }

  // ---------- what an edge is ----------

  /** p is e or a part of it. */
  predicate Part(p: Expr, e: Expr)
  {
    || p == e
    || (e.Not? && Part(p, e.e))
    || ((e.Or? || e.And?) && (Part(p, e.l) || Part(p, e.r)))
  }

  /** x stands in e, by itself or in a comparison. */
  ghost predicate Occurs(x: Symbol, e: Expr)
  {
    || Part(Sym(x), e)
    || exists y :: Part(Equal(x, y), e) || Part(Equal(y, x), e) || Part(Unequal(x, y), e) || Part(Unequal(y, x), e)
  }

  lemma {:induction false} SymbolsOccur(x: Symbol, e: Expr)
    ensures x in ExprSymbols(e) <==> Occurs(x, e)
  {
    match e
    case Or(l, r) => SymbolsOccur(x, l); SymbolsOccur(x, r);
    case And(l, r) => SymbolsOccur(x, l); SymbolsOccur(x, r);
    case Not(a) => SymbolsOccur(x, a);
    case Equal(s, t) => assert Part(Equal(s, t), e);
    case Unequal(s, t) => assert Part(Unequal(s, t), e);
    case Sym(s) =>
  }

  ghost predicate OccursIn(x: Symbol, e: Option<Expr>)
  {
    e.Some? && Occurs(x, e.value)
  }

  /** Property p makes its symbol depend on x. */
  ghost predicate Depends(p: Property, isChoice: bool, x: Symbol)
  {
    || (p.kind != Choice && p.kind != Select && OccursIn(x, p.visible))
    || (p.kind == Default && !isChoice && OccursIn(x, p.expr))
  }

  /** There is an edge exactly to the symbols in rev_dep, in the condition of a property that is neither a
      choice nor a select, and in a default of a symbol that is not a choice. */
  lemma EdgesExactly(info: map<Symbol, SymbolInfo>, s: Symbol, x: Symbol)
    ensures x in Edges(info, s) <==>
      s in info && (OccursIn(x, info[s].revDep) || exists p | p in info[s].props :: Depends(p, info[s].isChoice, x))
  {
    if s in info {
      var d := info[s];
      if d.revDep.Some? { SymbolsOccur(x, d.revDep.value); }
      PropsExactly(d.props, d.isChoice, x);
    }
  }

  lemma {:induction false} PropsExactly(ps: seq<Property>, isChoice: bool, x: Symbol)
    ensures x in AllPropSymbols(ps, isChoice) <==> exists p | p in ps :: Depends(p, isChoice, x)
  {
    hide Occurs, ExprSymbols;
    if ps != [] {
      var pre, p := ps[..|ps| - 1], ps[|ps| - 1];
      PropsExactly(pre, isChoice, x);
      PropExactly(p, isChoice, x);
      assert forall q :: q in ps <==> q in pre || q == p;
    }
  }

  lemma PropExactly(p: Property, isChoice: bool, x: Symbol)
    ensures x in PropSymbols(p, isChoice) <==> Depends(p, isChoice, x)
  {
    hide Occurs, ExprSymbols;
    if p.visible.Some? { SymbolsOccur(x, p.visible.value); }
    if p.expr.Some? { SymbolsOccur(x, p.expr.value); }
  }

  // ---------- walks ----------

  /** A walk along the edges through symbols that are not marked done. */
  predicate Walk(info: map<Symbol, SymbolInfo>, done: set<Symbol>, w: seq<Symbol>)
  {
    && w != [] && (forall i | 0 <= i < |w| :: w[i] !in done)
    && forall i | 0 < i < |w| :: w[i] in Edges(info, w[i - 1])
  }

  /** A walk from s that ends on a symbol of p or on one it has met before. */
  ghost predicate Returns(info: map<Symbol, SymbolInfo>, done: set<Symbol>, p: set<Symbol>, s: Symbol, w: seq<Symbol>)
  {
    Walk(info, done, w) && w[0] == s && (w[|w| - 1] in p || w[|w| - 1] in w[..|w| - 1])
  }

  ghost predicate Cyclic(info: map<Symbol, SymbolInfo>, done: set<Symbol>, p: set<Symbol>, s: Symbol)
  {
    exists w :: Returns(info, done, p, s, w)
  }

  /** x is where such a walk from s ends. */
  ghost predicate Closes(info: map<Symbol, SymbolInfo>, done: set<Symbol>, p: set<Symbol>, s: Symbol, x: Symbol)
  {
    exists w :: Returns(info, done, p, s, w) && w[|w| - 1] == x
  }

  lemma ReturnsAtOnce(info: map<Symbol, SymbolInfo>, done: set<Symbol>, p: set<Symbol>, s: Symbol)
    requires s in p && s !in done
    ensures Cyclic(info, done, p, s) && Closes(info, done, p, s, s)
  {
    assert Returns(info, done, p, s, [s]);
  }

  lemma DoneIsAcyclic(info: map<Symbol, SymbolInfo>, done: set<Symbol>, p: set<Symbol>, s: Symbol)
    requires s in done
    ensures !Cyclic(info, done, p, s)
  {
  }

  /** A returning walk of a successor, extended by s. */
  lemma StepBack(info: map<Symbol, SymbolInfo>, done: set<Symbol>, p: set<Symbol>, s: Symbol, t: Symbol, x: Symbol)
    requires s !in done && t in Edges(info, s) && Closes(info, done, p + {s}, t, x)
    ensures Closes(info, done, p, s, x) && Cyclic(info, done, p, s)
  {
    hide Edges;
    var w :| Returns(info, done, p + {s}, t, w) && w[|w| - 1] == x;
    Extend(info, done, p, s, w);
    var v := [s] + w;
    assert v[|v| - 1] == x;
  }

  lemma Extend(info: map<Symbol, SymbolInfo>, done: set<Symbol>, p: set<Symbol>, s: Symbol, w: seq<Symbol>)
    requires s !in done && w != [] && w[0] in Edges(info, s) && Returns(info, done, p + {s}, w[0], w)
    ensures Returns(info, done, p, s, [s] + w)
  {
    hide Edges;
    var v, x := [s] + w, w[|w| - 1];
    assert forall i | 0 < i < |v| :: v[i] == w[i - 1];
    if x in w[..|w| - 1] {
      var i :| 0 <= i < |w| - 1 && w[i] == x;
      assert v[..|v| - 1][i + 1] == x;
    } else if x == s {
      assert v[..|v| - 1][0] == x;
    }
  }

  /** A walk that returns passes through some successor. */
  lemma Shorten(info: map<Symbol, SymbolInfo>, done: set<Symbol>, p: set<Symbol>, s: Symbol, w: seq<Symbol>)
    requires s !in p && Returns(info, done, p, s, w)
    ensures |w| > 1 && w[1] in Edges(info, s) && Returns(info, done, p + {s}, w[1], w[1..])
  {
    hide Edges;
    var v, x := w[1..], w[|w| - 1];
    assert forall i | 0 <= i < |v| :: v[i] == w[i + 1];
    if x in w[..|w| - 1] {
      var i :| 0 <= i < |w| - 1 && w[i] == x;
      if i > 0 { assert v[..|v| - 1][i - 1] == x; }
    }
  }

  lemma StepOn(info: map<Symbol, SymbolInfo>, done: set<Symbol>, p: set<Symbol>, s: Symbol)
    requires s !in p && forall t | t in Edges(info, s) :: !Cyclic(info, done, p + {s}, t)
    ensures !Cyclic(info, done, p, s)
  {
    hide Returns, Edges;
    if Cyclic(info, done, p, s) {
      var w :| Returns(info, done, p, s, w);
      Shorten(info, done, p, s, w);
    }
  }

  // ---------- the flags ----------

  class SymbolTable {
    const info: map<Symbol, SymbolInfo>
    /** SYMBOL_CHECK_DONE, SYMBOL_CHECK and SYMBOL_CHECKED. */
    const done: set<Symbol>
    var check: set<Symbol>
    var checked: set<Symbol>

    constructor (info: map<Symbol, SymbolInfo>, done: set<Symbol>)
      ensures this.info == info && this.done == done && check == {} && checked == {}
    {
      this.info, this.done := info, done;
      check, checked := {}, {};
    }

    /** What a check of the symbols in ts reports. */
    ghost predicate Reports(ts: set<Symbol>, r: Option<Symbol>)
      reads this`check
    {
      match r
      case None => forall t | t in ts :: !Cyclic(info, done, check, t)
      case Some(x) => exists t | t in ts :: Closes(info, done, check, t, x)
    }

    /** sym_check_deps. */
    method CheckDeps(s: Symbol) returns (r: Option<Symbol>)
      modifies this
      ensures check == old(check) && old(checked) <= checked
      ensures s !in done && s !in check ==> s in checked
      ensures r.None? <==> !Cyclic(info, done, check, s)
      ensures r.Some? ==> Closes(info, done, check, s, r.value)
      decreases info.Keys - check, 0
    {
      hide Returns;
      if s in done {
        DoneIsAcyclic(info, done, check, s);
        return None;
      }
      if s in check {
        ReturnsAtOnce(info, done, check, s);
        return Some(s);
      }
      ghost var p := check;
      check, checked := check + {s}, checked + {s};
      r := None;
      if s in info {
        r := CheckSymbol(info[s]);
      }
      check := check - {s};
      assert check == p;
      match r {
        case None => StepOn(info, done, p, s);
        case Some(x) =>
          ghost var t :| t in Edges(info, s) && Closes(info, done, p + {s}, t, x);
          StepBack(info, done, p, s, t, x);
      }
    }

    /** The loop of sym_check_deps over rev_dep and the properties. */
    method CheckSymbol(d: SymbolInfo) returns (r: Option<Symbol>)
      modifies this
      ensures check == old(check) && old(checked) <= checked
      ensures Reports(Symbols(d.revDep) + AllPropSymbols(d.props, d.isChoice), r)
      decreases info.Keys - check, 3
    {
      hide Cyclic, Closes;
      r := CheckOption(d.revDep);
      if r.Some? { return; }
      var i := 0;
      while i < |d.props|
        invariant 0 <= i <= |d.props| && check == old(check) && old(checked) <= checked
        invariant r == None && Reports(Symbols(d.revDep) + AllPropSymbols(d.props[..i], d.isChoice), None)
      {
        var p := d.props[i];
        assert d.props[..i + 1][..i] == d.props[..i];
        i := i + 1;
        if p.kind == Choice || p.kind == Select { continue; }
        r := CheckOption(p.visible);
        if r.None? && p.kind == Default && !d.isChoice {
          r := CheckOption(p.expr);
        }
        if r.Some? {
          PropertySubset(d.props, i - 1, d.isChoice);
          return;
        }
      }
      assert d.props[..i] == d.props;
    }

    method CheckOption(e: Option<Expr>) returns (r: Option<Symbol>)
      modifies this
      ensures check == old(check) && old(checked) <= checked
      ensures Reports(Symbols(e), r)
      decreases info.Keys - check, 2
    {
      hide Cyclic, Closes;
      if e.None? { return None; }
      r := CheckExprDeps(e.value);
    }

    /** sym_check_expr_deps. */
    method CheckExprDeps(e: Expr) returns (r: Option<Symbol>)
      modifies this
      ensures check == old(check) && old(checked) <= checked
      ensures Reports(ExprSymbols(e), r)
      decreases info.Keys - check, 1, e
    {
      match e
      case Or(a, b) =>
        r := CheckExprDeps(a);
        if r.None? { r := CheckExprDeps(b); }
      case And(a, b) =>
        r := CheckExprDeps(a);
        if r.None? { r := CheckExprDeps(b); }
      case Not(a) => r := CheckExprDeps(a);
      case Equal(s, t) =>
        r := CheckDeps(s);
        if r.None? { r := CheckDeps(t); }
      case Unequal(s, t) =>
        r := CheckDeps(s);
        if r.None? { r := CheckDeps(t); }
      case Sym(s) => r := CheckDeps(s);
    }
  }

  lemma {:induction false} PropertySubset(ps: seq<Property>, i: nat, isChoice: bool)
    requires i < |ps|
    ensures PropSymbols(ps[i], isChoice) <= AllPropSymbols(ps, isChoice)
  {
    if i < |ps| - 1 { PropertySubset(ps[..|ps| - 1], i, isChoice); }
  }

  /** Started with no SYMBOL_CHECK flag, the symbol reported lies on a cycle. */
  lemma ReportedCycle(info: map<Symbol, SymbolInfo>, done: set<Symbol>, s: Symbol, x: Symbol)
    requires Closes(info, done, {}, s, x)
    ensures exists w, i :: Walk(info, done, w) && w[0] == s && 0 <= i < |w| - 1 && w[i] == w[|w| - 1] == x
  {
    var w :| Returns(info, done, {}, s, w) && w[|w| - 1] == x;
    var i :| 0 <= i < |w| - 1 && w[i] == x;
  }

  /** Two symbols that depend on each other are a cycle. */
  lemma MutualCycle(info: map<Symbol, SymbolInfo>, done: set<Symbol>, a: Symbol, b: Symbol)
    requires a !in done && b !in done && a in info && b in info
    requires exists p | p in info[a].props :: Depends(p, info[a].isChoice, b)
    requires exists p | p in info[b].props :: Depends(p, info[b].isChoice, a)
    ensures Cyclic(info, done, {}, a)
  {
    hide Depends, Edges;
    EdgesExactly(info, a, b);
    EdgesExactly(info, b, a);
    var w := [a, b, a];
    assert w[..2][0] == a;
    assert Returns(info, done, {}, a, w);
  }

  /** "A depends on B" and "B depends on A" are reported. */
  method MutualPrompts(a: Symbol, b: Symbol) returns (r: Option<Symbol>)
    requires a != b
    ensures r.Some?
  {
    hide Depends;
    var p, q := Property(Prompt, Some(Sym(b)), None), Property(Prompt, Some(Sym(a)), None);
    PromptDepends(p, b);
    PromptDepends(q, a);
    var info := map[a := SymbolInfo(None, [p], false), b := SymbolInfo(None, [q], false)];
    var table := new SymbolTable(info, {});
    MutualCycle(info, {}, a, b);
    r := table.CheckDeps(a);
  }

  lemma PromptDepends(p: Property, x: Symbol)
    requires p == Property(Prompt, Some(Sym(x)), None)
    ensures Depends(p, false, x)
  {
  }
}
