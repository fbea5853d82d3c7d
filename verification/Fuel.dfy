/** The fuel of Eval is not observable: an evaluation that comes back does so with the same
    result and state whatever further nesting is allowed. */
module Fuel {
  import opened Cel

  lemma {:induction false} MoreFuel(
    e: Expr, vars: map<string, Expr>, q: Request, scope: Scope, st: State, f: nat, g: nat)
    requires f <= g && Eval(e, vars, q, scope, st, f).0 != Diverge
    ensures Eval(e, vars, q, scope, st, g) == Eval(e, vars, q, scope, st, f)
    decreases f, e, 1
  {
    hide Eval;
    match e
    case Variable(x) => MoreFuelForVariable(x, vars, q, scope, st, f, g);
    case Not(a) => MoreFuelForOne(e, a, vars, q, scope, st, f, g);
    case StatusOf(resp) => MoreFuelForOne(e, resp, vars, q, scope, st, f, g);
    case Logic(absorbing, l, r) => MoreFuelForLogic(absorbing, l, r, vars, q, scope, st, f, g);
    case Eq(l, r) =>
      EqEquation(l, r, vars, q, scope, st, f);
      EqEquation(l, r, vars, q, scope, st, g);
      MoreFuelForPair(e, l, r, vars, q, scope, st, f, g);
    case Cond(c, t, b) => MoreFuelForCond(c, t, b, vars, q, scope, st, f, g);
    case With(resp, part, arg) =>
      WithEquation(resp, part, arg, vars, q, scope, st, f);
      WithEquation(resp, part, arg, vars, q, scope, st, g);
      MoreFuelForPair(e, resp, arg, vars, q, scope, st, f, g);
    case WithHeader(resp, key, val) => MoreFuelForHeader(resp, key, val, vars, q, scope, st, f, g);
    case _ => NoFuelForLeaf(e, vars, q, scope, st, f, g);
  }

  lemma NoFuelForLeaf(e: Expr, vars: map<string, Expr>, q: Request, scope: Scope, st: State, f: nat, g: nat)
    requires e.BoolLit? || e.IntLit? || e.StrLit? || e.NullLit? || e.Object? || e.Foreign? || e.NewResponse?
    ensures Eval(e, vars, q, scope, st, g) == Eval(e, vars, q, scope, st, f)
  {}

  lemma {:induction false} MoreFuelForVariable(
    x: string, vars: map<string, Expr>, q: Request, scope: Scope, st: State, f: nat, g: nat)
    requires f <= g && Eval(Variable(x), vars, q, scope, st, f).0 != Diverge
    ensures Eval(Variable(x), vars, q, scope, st, g) == Eval(Variable(x), vars, q, scope, st, f)
    decreases f, Variable(x), 0
  {
    if scope.RuleScope? && x !in st.memo && x in vars { MoreFuel(vars[x], vars, q, scope, st, f - 1, g - 1); }
  }

  lemma {:induction false} MoreFuelForOne(
    e: Expr, a: Expr, vars: map<string, Expr>, q: Request, scope: Scope, st: State, f: nat, g: nat)
    requires f <= g && (e == Not(a) || e == StatusOf(a)) && Eval(e, vars, q, scope, st, f).0 != Diverge
    ensures Eval(e, vars, q, scope, st, g) == Eval(e, vars, q, scope, st, f)
    decreases f, e, 0
  {
    MoreFuel(a, vars, q, scope, st, f, g);
  }

  // Two operands, both evaluated.
  lemma {:induction false} MoreFuelForPair(
    e: Expr, l: Expr, r: Expr, vars: map<string, Expr>, q: Request, scope: Scope, st: State, f: nat, g: nat)
    requires f <= g && l < e && r < e && Eval(l, vars, q, scope, st, f).0 != Diverge
    requires Eval(r, vars, q, scope, Eval(l, vars, q, scope, st, f).1, f).0 != Diverge
    ensures Eval(l, vars, q, scope, st, g) == Eval(l, vars, q, scope, st, f)
    ensures var st1 := Eval(l, vars, q, scope, st, f).1;
      Eval(r, vars, q, scope, st1, g) == Eval(r, vars, q, scope, st1, f)
    decreases f, e, 0
  {
    hide Eval;
    MoreFuel(l, vars, q, scope, st, f, g);
    MoreFuel(r, vars, q, scope, Eval(l, vars, q, scope, st, f).1, f, g);
  }

  lemma {:induction false} MoreFuelForLogic(
    absorbing: bool, l: Expr, r: Expr, vars: map<string, Expr>, q: Request, scope: Scope, st: State, f: nat, g: nat)
    requires f <= g && Eval(Logic(absorbing, l, r), vars, q, scope, st, f).0 != Diverge
    ensures Eval(Logic(absorbing, l, r), vars, q, scope, st, g) == Eval(Logic(absorbing, l, r), vars, q, scope, st, f)
    decreases f, Logic(absorbing, l, r), 0
  {
    LogicEquation(absorbing, l, r, vars, q, scope, st, f);
    LogicEquation(absorbing, l, r, vars, q, scope, st, g);
    hide Eval;
    MoreFuel(l, vars, q, scope, st, f, g);
    var (a, st1) := Eval(l, vars, q, scope, st, f);
    if a != Val(VBool(absorbing)) { MoreFuel(r, vars, q, scope, st1, f, g); }
  }

  lemma {:induction false} MoreFuelForCond(
    c: Expr, t: Expr, b: Expr, vars: map<string, Expr>, q: Request, scope: Scope, st: State, f: nat, g: nat)
    requires f <= g && Eval(Cond(c, t, b), vars, q, scope, st, f).0 != Diverge
    ensures Eval(Cond(c, t, b), vars, q, scope, st, g) == Eval(Cond(c, t, b), vars, q, scope, st, f)
    decreases f, Cond(c, t, b), 0
  {
    CondEquation(c, t, b, vars, q, scope, st, f);
    CondEquation(c, t, b, vars, q, scope, st, g);
    hide Eval;
    MoreFuel(c, vars, q, scope, st, f, g);
    var (a, st1) := Eval(c, vars, q, scope, st, f);
    if a.Val? && a.v.VBool? { MoreFuel(if a.v.b then t else b, vars, q, scope, st1, f, g); }
  }

  lemma {:induction false} MoreFuelForHeader(
    resp: Expr, key: Expr, val: Expr, vars: map<string, Expr>, q: Request, scope: Scope, st: State, f: nat, g: nat)
    requires f <= g && Eval(WithHeader(resp, key, val), vars, q, scope, st, f).0 != Diverge
    ensures Eval(WithHeader(resp, key, val), vars, q, scope, st, g) ==
      Eval(WithHeader(resp, key, val), vars, q, scope, st, f)
    decreases f, WithHeader(resp, key, val), 0
  {
    HeaderEquation(resp, key, val, vars, q, scope, st, f);
    HeaderEquation(resp, key, val, vars, q, scope, st, g);
    hide Eval;
    MoreFuel(resp, vars, q, scope, st, f, g);
    var (a, st1) := Eval(resp, vars, q, scope, st, f);
    if a.Val? {
      MoreFuel(key, vars, q, scope, st1, f, g);
      var (k, st2) := Eval(key, vars, q, scope, st1, f);
      if k.Val? { MoreFuel(val, vars, q, scope, st2, f, g); }
    }
  }
}
