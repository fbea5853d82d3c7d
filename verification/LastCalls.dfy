/** A rule's last builder calls. When a rule answers, nothing reads a variable after the chain of
    calls that makes its answer, so these calls may change a remembered response: the answer is
    the reference's all the same, as in variables.denied.withBody("no"). */
module LastCalls {
  import opened Cel
  import opened Options
  import opened Soundness
  import opened Reference

  // Evaluating these reads no variable and makes no response.
  predicate Leaf(e: Expr) { e.IntLit? || e.StrLit? || e.Object? || e.Foreign? }

  // Every builder call but the last ones: a chain of calls with leaf arguments, ending in the
  // value of e. When e is the rule that answers, no variable is read after them.
  ghost predicate EveryBuildButTail(
    good: BuildTest, e: Expr, vars: map<string, Expr>, q: Request, scope: Scope, st: State, fuel: nat)
    decreases e
  {
    match e
    case Cond(c, t, f) =>
      && EveryBuild(good, c, vars, q, scope, st, fuel)
      && var (a, st1) := Eval(c, vars, q, scope, st, fuel);
        (a.Val? && a.v.VBool? && a.v.b ==> EveryBuildButTail(good, t, vars, q, scope, st1, fuel))
        && (a.Val? && a.v.VBool? && !a.v.b ==> EveryBuildButTail(good, f, vars, q, scope, st1, fuel))
    case With(resp, part, arg) =>
      if Leaf(arg) then EveryBuildButTail(good, resp, vars, q, scope, st, fuel)
      else
        && EveryBuild(good, resp, vars, q, scope, st, fuel)
        && EveryBuild(good, arg, vars, q, scope, Eval(resp, vars, q, scope, st, fuel).1, fuel)
    case WithHeader(resp, key, val) =>
      if Leaf(key) && Leaf(val) then EveryBuildButTail(good, resp, vars, q, scope, st, fuel)
      else
        && EveryBuild(good, resp, vars, q, scope, st, fuel)
        && var (a, st1) := Eval(resp, vars, q, scope, st, fuel);
          (a.Val? ==>
            EveryBuild(good, key, vars, q, scope, st1, fuel)
            && var (k, st2) := Eval(key, vars, q, scope, st1, fuel);
              (k.Val? ==> EveryBuild(good, val, vars, q, scope, st2, fuel)))
    case _ => EveryBuild(good, e, vars, q, scope, st, fuel)
  }

  lemma {:induction false} EveryBuildIsMore(
    good: BuildTest, e: Expr, vars: map<string, Expr>, q: Request, scope: Scope, st: State, fuel: nat)
    requires EveryBuild(good, e, vars, q, scope, st, fuel)
    ensures EveryBuildButTail(good, e, vars, q, scope, st, fuel)
    decreases e
  {
    hide Eval;
    if e.Cond? {
      var o1 := Eval(e.c, vars, q, scope, st, fuel);
      if o1.0.Val? && o1.0.v.VBool? {
        EveryBuildIsMore(good, if o1.0.v.b then e.t else e.f, vars, q, scope, o1.1, fuel);
      }
    } else if e.With? || e.WithHeader? {
      EveryBuildIsMore(good, e.resp, vars, q, scope, st, fuel);
    }
  }

  // What a rule's own value is, whatever its last builder call changes.
  ghost predicate Yields(rho: Values, out: (Res<Addr>, State), den: Res<Resp>) {
    den != Diverge && Deref(out.0, out.1.heap) == den && (out.0 == Val(VNull) ==> Shadows(rho, out.1))
  }

  lemma BuildYields(rho: Values, last: State, a: Value<Addr>, da: Value<Resp>, edit: Option<Edit>)
    requires Deref(Val(a), last.heap) == Val(da)
    ensures Yields(rho, Build(a, edit, last), BuildValue(da, edit))
  {}

  lemma RefinesYields(env: TypeEnv, rho: Values, own: bool, st: State, out: (Res<Addr>, State), d: Res<Resp>)
    requires Refines(env, rho, own, st, out, d)
    ensures Yields(rho, out, d)
    ensures out.0.Val? && !out.0.v.VBool? ==> Yields(rho, (Err(NO_OVERLOAD), out.1), Err(NO_OVERLOAD))
  {}

  lemma YieldsFacts(rho: Values, out: (Res<Addr>, State), d: Res<Resp>)
    requires Yields(rho, out, d)
    ensures !out.0.Diverge? && (out.0.Err? ==> d == Err(out.0.msg))
    ensures out.0.Val? ==> d.Val? && Deref(out.0, out.1.heap) == d
  {}

  lemma LeafYields(e: Expr, rho: Values, vars: map<string, Expr>, q: Request, scope: Scope, st: State, fuel: nat)
    requires Leaf(e)
    ensures var out := Eval(e, vars, q, scope, st, fuel);
      var d := Denote(e, rho, q, scope);
      && out.1 == st && !out.0.Diverge? && (out.0.Err? ==> d == Err(out.0.msg))
      && (out.0.Val? ==> d.Val? && PartsAgree(out.0.v, d.v))
  {}

  ghost predicate ReadyButTail(e: Expr, k: nat, c: Decls, rho: Values, q: Request, scope: Scope, st: State, fuel: nat) {
    && Solves(c, rho, q) && k < |c.envs| && k <= fuel && Check(e, c.envs[k]).Some? && Shadows(rho, st)
    && EveryBuildButTail(Untouched, e, c.exprs, q, scope, st, fuel)
  }

  lemma {:induction false} TailRefines(
    e: Expr, k: nat, c: Decls, rho: Values, q: Request, scope: Scope, st: State, fuel: nat)
    requires ReadyButTail(e, k, c, rho, q, scope, st, fuel)
    ensures Yields(rho, Eval(e, c.exprs, q, scope, st, fuel), Denote(e, rho, q, scope))
    decreases e, 1
  {
    hide Eval, Denote, EveryBuild, Refines, Yields, Check, Shadows, Solves;
    match e
    case Cond(b, t, f) => TailOfCond(b, t, f, k, c, rho, q, scope, st, fuel);
    case With(resp, part, arg) => TailOfWith(resp, part, arg, k, c, rho, q, scope, st, fuel);
    case WithHeader(resp, key, val) => TailOfHeader(resp, key, val, k, c, rho, q, scope, st, fuel);
    case _ =>
      EvalRefines(false, e, k, c, rho, q, scope, st, fuel);
      RefinesYields(c.envs[k], rho, false, st, Eval(e, c.exprs, q, scope, st, fuel), Denote(e, rho, q, scope));
  }

  lemma OperandsCheck(e: Expr, env: TypeEnv)
    requires Check(e, env).Some?
    ensures e.Cond? ==> Check(e.c, env).Some? && Check(e.t, env).Some? && Check(e.f, env).Some?
    ensures e.With? ==> Check(e.resp, env).Some? && Check(e.arg, env).Some?
    ensures e.WithHeader? ==> Check(e.resp, env).Some? && Check(e.key, env).Some? && Check(e.val, env).Some?
  {}

  lemma {:induction false} TailOfCond(
    b: Expr, t: Expr, f: Expr, k: nat, c: Decls, rho: Values, q: Request, scope: Scope, st: State, fuel: nat)
    requires ReadyButTail(Cond(b, t, f), k, c, rho, q, scope, st, fuel)
    ensures Yields(rho, Eval(Cond(b, t, f), c.exprs, q, scope, st, fuel), Denote(Cond(b, t, f), rho, q, scope))
    decreases Cond(b, t, f), 0
  {
    hide Eval, Denote, EveryBuild, Refines, Yields, Check, Shadows, Solves;
    CondEquation(b, t, f, c.exprs, q, scope, st, fuel);
    DenoteCond(b, t, f, rho, q, scope);
    OperandsCheck(Cond(b, t, f), c.envs[k]);
    EvalRefines(false, b, k, c, rho, q, scope, st, fuel);
    var o1, d1 := Eval(b, c.exprs, q, scope, st, fuel), Denote(b, rho, q, scope);
    RefinesFacts(c.envs[k], rho, false, st, o1, d1);
    RefinesYields(c.envs[k], rho, false, st, o1, d1);
    if o1.0.Val? && o1.0.v.VBool? {
      TailRefines(if o1.0.v.b then t else f, k, c, rho, q, scope, o1.1, fuel);
    }
  }

  lemma {:induction false} TailOfWith(
    resp: Expr, part: Part, arg: Expr, k: nat, c: Decls, rho: Values, q: Request, scope: Scope, st: State, fuel: nat)
    requires ReadyButTail(With(resp, part, arg), k, c, rho, q, scope, st, fuel)
    ensures Yields(rho, Eval(With(resp, part, arg), c.exprs, q, scope, st, fuel),
                   Denote(With(resp, part, arg), rho, q, scope))
    decreases With(resp, part, arg), 0
  {
    hide Eval, Denote, EveryBuild, Refines, Check, Shadows, Solves, Strict2, Build, BuildValue, PartEdit, Leaf;
    WithEquation(resp, part, arg, c.exprs, q, scope, st, fuel);
    DenoteWith(resp, part, arg, rho, q, scope);
    OperandsCheck(With(resp, part, arg), c.envs[k]);
    var env := c.envs[k];
    var o1, d1 := Eval(resp, c.exprs, q, scope, st, fuel), Denote(resp, rho, q, scope);
    var o2, d2 := Eval(arg, c.exprs, q, scope, o1.1, fuel), Denote(arg, rho, q, scope);
    if Leaf(arg) {
      TailRefines(resp, k, c, rho, q, scope, st, fuel);
      LeafYields(arg, rho, c.exprs, q, scope, o1.1, fuel);
    } else {
      EvalRefines(false, resp, k, c, rho, q, scope, st, fuel);
      RefinesFacts(env, rho, false, st, o1, d1);
      NextRefines(false, resp, arg, k, c, rho, q, scope, st, fuel);
      RefinesFacts(env, rho, false, st, o2, d2);
      RefinesYields(env, rho, false, st, (o1.0, o2.1), d1);
    }
    YieldsFacts(rho, (o1.0, o2.1), d1);
    Strict2First(o1.0, o2.0);
    Strict2First(d1, d2);
    if o1.0.Val? && o2.0.Val? { BuildYields(rho, o2.1, o1.0.v, d1.v, PartEdit(part, o2.0.v)); }
  }

  lemma {:induction false} TailOfHeader(
    resp: Expr, key: Expr, val: Expr, k: nat, c: Decls, rho: Values, q: Request, scope: Scope, st: State, fuel: nat)
    requires ReadyButTail(WithHeader(resp, key, val), k, c, rho, q, scope, st, fuel)
    ensures Yields(rho, Eval(WithHeader(resp, key, val), c.exprs, q, scope, st, fuel),
                   Denote(WithHeader(resp, key, val), rho, q, scope))
    decreases WithHeader(resp, key, val), 0
  {
    hide Eval, Denote, EveryBuild, Refines, Check, Shadows, Solves, Build, BuildValue, Leaf;
    HeaderEquation(resp, key, val, c.exprs, q, scope, st, fuel);
    DenoteWithHeader(resp, key, val, rho, q, scope);
    OperandsCheck(WithHeader(resp, key, val), c.envs[k]);
    var env, o1, d1 := c.envs[k], Eval(resp, c.exprs, q, scope, st, fuel), Denote(resp, rho, q, scope);
    var o2, d2 := Eval(key, c.exprs, q, scope, o1.1, fuel), Denote(key, rho, q, scope);
    var o3, d3 := Eval(val, c.exprs, q, scope, o2.1, fuel), Denote(val, rho, q, scope);
    if Leaf(key) && Leaf(val) {
      TailRefines(resp, k, c, rho, q, scope, st, fuel);
      LeafYields(key, rho, c.exprs, q, scope, o1.1, fuel);
      LeafYields(val, rho, c.exprs, q, scope, o2.1, fuel);
      YieldsFacts(rho, o1, d1);
    } else {
      EvalRefines(false, resp, k, c, rho, q, scope, st, fuel);
      RefinesFacts(env, rho, false, st, o1, d1);
      if o1.0.Val? {
        NextRefines(false, resp, key, k, c, rho, q, scope, st, fuel);
        RefinesFacts(env, rho, false, st, o2, d2);
        if o2.0.Val? {
          NextRefines(false, key, val, k, c, rho, q, scope, o1.1, fuel);
          RefinesAfter(env, rho, false, false, st, o1, d1, o3, d3);
          RefinesFacts(env, rho, false, st, o3, d3);
          RefinesYields(env, rho, false, st, (o1.0, o3.1), d1);
          YieldsFacts(rho, (o1.0, o3.1), d1);
        }
      }
    }
    if o1.0.Val? && o2.0.Val? && o3.0.Val? { BuildYields(rho, o3.1, o1.0.v, d1.v, HeaderEdit(o2.0.v, o3.0.v)); }
  }

  // ---- Rules that build on their own responses, but for the last calls -----------------

  predicate UnsharedButTail(e: Expr) {
    match e
    case Cond(b, t, f) => Unshared(b) && UnsharedButTail(t) && UnsharedButTail(f)
    case With(resp, _, arg) => if Leaf(arg) then UnsharedButTail(resp) else Unshared(resp) && Unshared(arg)
    case WithHeader(resp, key, val) =>
      if Leaf(key) && Leaf(val) then UnsharedButTail(resp) else Unshared(resp) && Unshared(key) && Unshared(val)
    case _ => Unshared(e)
  }

  // Such a rule changes no remembered response before its last calls, on any request.
  lemma {:induction false} UnsharedTailIsQuiet(
    e: Expr, k: nat, c: Decls, rho: Values, q: Request, scope: Scope, st: State, fuel: nat)
    requires Solves(c, rho, q) && k < |c.envs| && k <= fuel && Check(e, c.envs[k]).Some? && Shadows(rho, st)
    requires UnsharedButTail(e) && AllUnshared(c)
    ensures EveryBuildButTail(Untouched, e, c.exprs, q, scope, st, fuel)
    decreases e
  {
    hide Eval, Denote, EveryBuild, Refines, Check, Shadows, Solves, Unshared, AllUnshared, Leaf;
    OperandsCheck(e, c.envs[k]);
    match e
    case Cond(b, t, f) =>
      var o1 := UnsharedOperand(b, k, c, rho, q, scope, st, fuel);
      if o1.0.Val? && o1.0.v.VBool? {
        UnsharedTailIsQuiet(if o1.0.v.b then t else f, k, c, rho, q, scope, o1.1, fuel);
      }
    case With(resp, _, arg) =>
      if Leaf(arg) {
        UnsharedTailIsQuiet(resp, k, c, rho, q, scope, st, fuel);
      } else {
        var o1 := UnsharedOperand(resp, k, c, rho, q, scope, st, fuel);
        var o2 := UnsharedOperand(arg, k, c, rho, q, scope, o1.1, fuel);
      }
    case WithHeader(resp, key, val) =>
      if Leaf(key) && Leaf(val) {
        UnsharedTailIsQuiet(resp, k, c, rho, q, scope, st, fuel);
      } else {
        var o1 := UnsharedOperand(resp, k, c, rho, q, scope, st, fuel);
        var o2 := UnsharedOperand(key, k, c, rho, q, scope, o1.1, fuel);
        var o3 := UnsharedOperand(val, k, c, rho, q, scope, o2.1, fuel);
      }
    case _ => var o1 := UnsharedOperand(e, k, c, rho, q, scope, st, fuel);
  }

  lemma UnsharedOperand(
    e: Expr, k: nat, c: Decls, rho: Values, q: Request, scope: Scope, st: State, fuel: nat)
    returns (o: (Res<Addr>, State))
    requires Solves(c, rho, q) && k < |c.envs| && k <= fuel && Check(e, c.envs[k]).Some? && Shadows(rho, st)
    requires Unshared(e) && AllUnshared(c)
    ensures o == Eval(e, c.exprs, q, scope, st, fuel) && Shadows(rho, o.1)
    ensures EveryBuild(Untouched, e, c.exprs, q, scope, st, fuel)
  {
    hide Eval, Denote, EveryBuild, Check, Unshared, AllUnshared, Solves, Shadows;
    EvalRefines(true, e, k, c, rho, q, scope, st, fuel);
    o := Eval(e, c.exprs, q, scope, st, fuel);
    RefinesFacts(c.envs[k], rho, FreshRoot(e), st, o, Denote(e, rho, q, scope));
  }
}
