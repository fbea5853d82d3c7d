/** The reference semantics and the refinement of evaluation to it.

    In the reference a response is a plain value, variables are evaluated once each in the
    order of their declaration, and nothing is shared. The website documents variables this
    way (website/docs/policies/variables.md). The code evaluates lazily, in whatever order
    rules force variables, and changes responses in place. The two agree as long as no builder
    call changes a response that a variable remembers: a condition on the run (Quiet), which an
    expression that builds only on its own responses meets in every run (Unshared). */
module Reference {
  import opened Cel
  import opened Options
  import opened Soundness

  type Values = map<string, Res<Resp>>

  function StatusValue(a: Res<Resp>): Res<Resp> {
    if !a.Val? then a else if !a.v.VResp? then Err(NO_OVERLOAD) else Val(VInt(a.v.r.status))
  }

  function BuildValue(a: Value<Resp>, edit: Option<Edit>): Res<Resp> {
    if !a.VResp? || edit.None? then Err(NO_OVERLOAD) else Val(VResp(edit.value.On(a.r)))
  }

  function Denote(e: Expr, rho: Values, q: Request, scope: Scope): Res<Resp> {
    match e
    case BoolLit(b) => Val(VBool(b))
    case IntLit(i) => Val(VInt(i))
    case StrLit(s) => Val(VStr(s))
    case NullLit => Val(VNull)
    case Object(path, ty) => Read(q.attrs, path, ty)
    case Foreign(call, ty) => if scope.MatchScope? then Err(NO_ATTRIBUTE) else Read(q.calls, call, ty)
    case Variable(x) =>
      if scope.MatchScope? then Err(NO_ATTRIBUTE) else if x in rho then rho[x] else Err(NO_KEY)
    case Not(a) => Negate(Denote(a, rho, q, scope))
    case Logic(absorbing, l, r) =>
      var a := Denote(l, rho, q, scope);
      if a == Val(VBool(absorbing)) || a.Diverge? then a else Absorb(a, Denote(r, rho, q, scope), absorbing)
    case Eq(l, r) => Equal(Denote(l, rho, q, scope), Denote(r, rho, q, scope))
    case Cond(c, t, f) =>
      var a := Denote(c, rho, q, scope);
      if !a.Val? then a
      else if !a.v.VBool? then Err(NO_OVERLOAD)
      else if a.v.b then Denote(t, rho, q, scope)
      else Denote(f, rho, q, scope)
    case NewResponse => Val(VResp(FRESH_RESPONSE))
    case StatusOf(resp) => StatusValue(Denote(resp, rho, q, scope))
    case With(resp, part, arg) =>
      var a, n := Denote(resp, rho, q, scope), Denote(arg, rho, q, scope);
      var bad := Strict2(a, n);
      if bad.Some? then bad.value else BuildValue(a.v, PartEdit(part, n.v))
    case WithHeader(resp, key, val) =>
      var a, k, v := Denote(resp, rho, q, scope), Denote(key, rho, q, scope), Denote(val, rho, q, scope);
      if !a.Val? then a else if !k.Val? then k else if !v.Val? then v
      else BuildValue(a.v, HeaderEdit(k.v, v.v))
  }

  lemma DenoteLogic(absorbing: bool, l: Expr, r: Expr, rho: Values, q: Request, scope: Scope)
    ensures Denote(Logic(absorbing, l, r), rho, q, scope) ==
      var a := Denote(l, rho, q, scope);
      if a == Val(VBool(absorbing)) || a.Diverge? then a else Absorb(a, Denote(r, rho, q, scope), absorbing)
  {}

  lemma DenoteEq(l: Expr, r: Expr, rho: Values, q: Request, scope: Scope)
    ensures Denote(Eq(l, r), rho, q, scope) == Equal(Denote(l, rho, q, scope), Denote(r, rho, q, scope))
  {}

  lemma DenoteCond(b: Expr, t: Expr, f: Expr, rho: Values, q: Request, scope: Scope)
    ensures Denote(Cond(b, t, f), rho, q, scope) ==
      var a := Denote(b, rho, q, scope);
      if !a.Val? then a else if !a.v.VBool? then Err(NO_OVERLOAD)
      else if a.v.b then Denote(t, rho, q, scope) else Denote(f, rho, q, scope)
  {}

  lemma DenoteWith(resp: Expr, part: Part, arg: Expr, rho: Values, q: Request, scope: Scope)
    ensures Denote(With(resp, part, arg), rho, q, scope) ==
      var a, n := Denote(resp, rho, q, scope), Denote(arg, rho, q, scope);
      var bad := Strict2(a, n);
      if bad.Some? then bad.value else BuildValue(a.v, PartEdit(part, n.v))
  {}

  lemma DenoteWithHeader(resp: Expr, key: Expr, val: Expr, rho: Values, q: Request, scope: Scope)
    ensures Denote(WithHeader(resp, key, val), rho, q, scope) ==
      var a, k, v := Denote(resp, rho, q, scope), Denote(key, rho, q, scope), Denote(val, rho, q, scope);
      if !a.Val? then a else if !k.Val? then k else if !v.Val? then v
      else BuildValue(a.v, HeaderEdit(k.v, v.v))
  {}

  // ---- When responses are not shared ---------------------------------------------------

  // Every response the expression can yield is one it made itself.
  predicate FreshRoot(e: Expr) {
    match e
    case NewResponse => true
    case NullLit => true
    case With(resp, _, _) => FreshRoot(resp)
    case WithHeader(resp, _, _) => FreshRoot(resp)
    case Cond(_, t, f) => FreshRoot(t) && FreshRoot(f)
    case _ => false
  }

  // No builder is called on a variable's response.
  predicate Unshared(e: Expr) {
    match e
    case Not(a) => Unshared(a)
    case Logic(_, l, r) => Unshared(l) && Unshared(r)
    case Eq(l, r) => Unshared(l) && Unshared(r)
    case Cond(c, t, f) => Unshared(c) && Unshared(t) && Unshared(f)
    case StatusOf(resp) => Unshared(resp)
    case With(resp, _, arg) => FreshRoot(resp) && Unshared(resp) && Unshared(arg)
    case WithHeader(resp, key, val) => FreshRoot(resp) && Unshared(resp) && Unshared(key) && Unshared(val)
    case _ => true
  }

  // A condition on builder calls: receiver, edit, and the state in which the call is made.
  type BuildTest = (Value<Addr>, Option<Edit>, State) -> bool

  // Every builder call that the evaluation of e makes meets the condition.
  ghost predicate EveryBuild(
    good: BuildTest, e: Expr, vars: map<string, Expr>, q: Request, scope: Scope, st: State, fuel: nat)
    decreases fuel, e
  {
    match e
    case Variable(x) =>
      scope.RuleScope? && x !in st.memo && x in vars && fuel > 0 ==>
        EveryBuild(good, vars[x], vars, q, scope, st, fuel - 1)
    case Not(a) => EveryBuild(good, a, vars, q, scope, st, fuel)
    case StatusOf(resp) => EveryBuild(good, resp, vars, q, scope, st, fuel)
    case Logic(absorbing, l, r) =>
      && EveryBuild(good, l, vars, q, scope, st, fuel)
      && var (a, st1) := Eval(l, vars, q, scope, st, fuel);
        (a != Val(VBool(absorbing)) && !a.Diverge? ==> EveryBuild(good, r, vars, q, scope, st1, fuel))
    case Eq(l, r) =>
      && EveryBuild(good, l, vars, q, scope, st, fuel)
      && EveryBuild(good, r, vars, q, scope, Eval(l, vars, q, scope, st, fuel).1, fuel)
    case Cond(c, t, f) =>
      && EveryBuild(good, c, vars, q, scope, st, fuel)
      && var (a, st1) := Eval(c, vars, q, scope, st, fuel);
        (a.Val? && a.v.VBool? && a.v.b ==> EveryBuild(good, t, vars, q, scope, st1, fuel))
        && (a.Val? && a.v.VBool? && !a.v.b ==> EveryBuild(good, f, vars, q, scope, st1, fuel))
    case With(resp, part, arg) =>
      && EveryBuild(good, resp, vars, q, scope, st, fuel)
      && var (a, st1) := Eval(resp, vars, q, scope, st, fuel);
        EveryBuild(good, arg, vars, q, scope, st1, fuel)
        && var (n, st2) := Eval(arg, vars, q, scope, st1, fuel);
          (a.Val? && n.Val? ==> good(a.v, PartEdit(part, n.v), st2))
    case WithHeader(resp, key, val) =>
      && EveryBuild(good, resp, vars, q, scope, st, fuel)
      && var (a, st1) := Eval(resp, vars, q, scope, st, fuel);
        (a.Val? ==>
          EveryBuild(good, key, vars, q, scope, st1, fuel)
          && var (k, st2) := Eval(key, vars, q, scope, st1, fuel);
            (k.Val? ==>
              EveryBuild(good, val, vars, q, scope, st2, fuel)
              && var (v, st3) := Eval(val, vars, q, scope, st2, fuel);
                (v.Val? ==> good(a.v, HeaderEdit(k.v, v.v), st3))))
    case _ => true
  }

  ghost predicate Holds(st: State, x: string, a: Addr) {
    x in st.memo && st.memo[x] == Val(VResp(a))
  }

  // A variable remembers the response at a.
  ghost predicate Shared(st: State, a: Addr) { exists x :: Holds(st, x, a) }

  // The call changes no response that a variable remembers.
  ghost predicate Untouched(a: Value<Addr>, edit: Option<Edit>, st: State) {
    a.VResp? && a.r < |st.heap| && edit.Some? && Shared(st, a.r) ==> edit.value.On(st.heap[a.r]) == st.heap[a.r]
  }

  ghost predicate Quiet(e: Expr, vars: map<string, Expr>, q: Request, scope: Scope, st: State, fuel: nat) {
    EveryBuild(Untouched, e, vars, q, scope, st, fuel)
  }

  ghost predicate AllUnshared(c: Decls) {
    |c.envs| > 0 && forall x :: x in Known(c) && x in c.exprs ==> Unshared(c.exprs[x])
  }

  // Either the expression and the variables build on their own responses only (strict), or this
  // evaluation happens to be quiet.
  ghost predicate Fits(strict: bool, e: Expr, c: Decls, q: Request, scope: Scope, st: State, fuel: nat) {
    if strict then Unshared(e) && AllUnshared(c) else Quiet(e, c.exprs, q, scope, st, fuel)
  }

  // ---- The relation between a state and the reference ----------------------------------

  ghost function Deref(r: Res<Addr>, heap: seq<Resp>): Res<Resp> {
    match r
    case Diverge => Diverge
    case Err(msg) => Err(msg)
    case Val(v) =>
      match v
      case VBool(b) => Val(VBool(b))
      case VInt(i) => Val(VInt(i))
      case VStr(s) => Val(VStr(s))
      case VNull => Val(VNull)
      case VResp(a) => if a < |heap| then Val(VResp(heap[a])) else Diverge
  }

  ghost predicate Shows(rho: Values, st: State, x: string) {
    x in st.memo ==> x in rho && Deref(st.memo[x], st.heap) == rho[x] && rho[x] != Diverge
  }

  ghost predicate Shadows(rho: Values, st: State) { forall x :: Shows(rho, st, x) }

  ghost predicate Inert(st: State, st': State, a: Addr) {
    && (a < |st.heap| && a < |st'.heap| ==> st'.heap[a] == st.heap[a])
    && (Shared(st', a) ==> Shared(st, a) || a >= |st.heap|)
  }

  // Old responses keep their contents; newly shared ones are new; what is remembered stays so.
  ghost predicate Leaves(env: TypeEnv, st: State, st': State) {
    Extends(env, st, st') && forall a :: Inert(st, st', a)
  }

  // own: nobody else holds the resulting response.
  ghost predicate Origin(st: State, out: (Res<Addr>, State), own: bool) {
    out.0.Val? && out.0.v.VResp? ==>
      var a := out.0.v.r;
      && (a >= |st.heap| || Shared(st, a))
      && (own ==> a >= |st.heap| && !Shared(out.1, a))
  }

  ghost predicate Refines(env: TypeEnv, rho: Values, own: bool, st: State, out: (Res<Addr>, State), den: Res<Resp>) {
    && den != Diverge && Deref(out.0, out.1.heap) == den
    && Shadows(rho, out.1) && Leaves(env, st, out.1) && Origin(st, out, own)
  }

  // ---- Composing steps -----------------------------------------------------------------

  lemma LeavesAfter(env: TypeEnv, a: State, b: State, c: State)
    requires Leaves(env, a, b) && Leaves(env, b, c)
    ensures Leaves(env, a, c)
  {
    forall i ensures Inert(a, c, i) { assert Inert(a, b, i) && Inert(b, c, i); }
    forall x ensures Kept(env, a, c, x) { assert Kept(env, a, b, x) && Kept(env, b, c, x); }
  }

  lemma RefinesAfter(env: TypeEnv, rho: Values, f1: bool, f2: bool, st: State,
                     first: (Res<Addr>, State), d1: Res<Resp>, out: (Res<Addr>, State), d2: Res<Resp>)
    requires Refines(env, rho, f1, st, first, d1) && Refines(env, rho, f2, first.1, out, d2)
    ensures Refines(env, rho, f2, st, out, d2)
    ensures Refines(env, rho, f1, st, (first.0, out.1), d1)
  {
    LeavesAfter(env, st, first.1, out.1);
    if first.0.Val? && first.0.v.VResp? { assert Inert(first.1, out.1, first.0.v.r); }
    if out.0.Val? && out.0.v.VResp? { assert Inert(st, first.1, out.0.v.r); }
  }

  lemma RefinesWeaker(
    env: TypeEnv, rho: Values, own: bool, own': bool, st: State, out: (Res<Addr>, State), d: Res<Resp>)
    requires Refines(env, rho, own, st, out, d) && (own' ==> own)
    ensures Refines(env, rho, own', st, out, d)
  {}

  // What a caller needs to know to go on.
  lemma RefinesFacts(env: TypeEnv, rho: Values, own: bool, st: State, out: (Res<Addr>, State), d: Res<Resp>)
    requires Refines(env, rho, own, st, out, d)
    ensures Shadows(rho, out.1) && !out.0.Diverge?
    ensures out.0.Err? <==> d.Err?
    ensures out.0.Err? ==> d == Err(out.0.msg) && Refines(env, rho, true, st, out, d)
    ensures out.0.Val? && out.0.v.VBool? <==> d.Val? && d.v.VBool?
    ensures out.0.Val? && out.0.v.VBool? ==> d == Val(VBool(out.0.v.b))
    ensures out.0.Val? && !out.0.v.VBool? ==>
      d.Val? && Refines(env, rho, true, st, (Err(NO_OVERLOAD), out.1), Err(NO_OVERLOAD))
    ensures out.0.Val? ==> d.Val? && PartsAgree(out.0.v, d.v)
  {}

  // Edits depend on integers and strings only, which both semantics share.
  ghost predicate PartsAgree(v: Value<Addr>, d: Value<Resp>) {
    && (forall part :: PartEdit(part, v) == PartEdit(part, d))
    && (v.VStr? <==> d.VStr?) && (v.VStr? ==> d.s == v.s)
  }

  // A builder on a response nobody else holds, or one that changes no remembered response.
  lemma BuildRefines(env: TypeEnv, rho: Values, own: bool, st: State, last: State,
                     a: Value<Addr>, da: Value<Resp>, edit: Option<Edit>)
    requires Refines(env, rho, own, st, (Val(a), last), Val(da))
    requires own || Untouched(a, edit, last)
    ensures Untouched(a, edit, last)
    ensures Refines(env, rho, own, st, Build(a, edit, last), BuildValue(da, edit))
  {
    if a.VResp? && edit.Some? {
      if Shared(last, a.r) {
        assert last.heap[a.r := edit.value.On(last.heap[a.r])] == last.heap;
      } else {
        if Shared(st, a.r) {
          var x :| Holds(st, x, a.r);
          assert Kept(env, st, last, x) && Holds(last, x, a.r);
        }
        FreshBuildRefines(env, rho, own, st, last, a, da, edit.value);
      }
    }
  }

  lemma FreshBuildRefines(env: TypeEnv, rho: Values, own: bool, st: State, last: State,
                          a: Value<Addr>, da: Value<Resp>, edit: Edit)
    requires Refines(env, rho, own, st, (Val(a), last), Val(da))
    requires a.VResp? && a.r >= |st.heap| && !Shared(last, a.r)
    ensures Refines(env, rho, own, st, Build(a, Some(edit), last), BuildValue(da, Some(edit)))
  {
    var out := Build(a, Some(edit), last);
    forall x ensures Shows(rho, out.1, x) && Kept(env, st, out.1, x) {
      assert Shows(rho, last, x) && Kept(env, st, last, x);
      assert !Holds(last, x, a.r);
    }
    forall i ensures Inert(st, out.1, i) {
      assert Inert(st, last, i);
      if Shared(out.1, i) { var x :| Holds(out.1, x, i); assert Holds(last, x, i); }
    }
    assert !Shared(out.1, a.r) by { assert forall x :: Holds(out.1, x, a.r) ==> Holds(last, x, a.r); }
  }

  lemma AbsorbRefines(env: TypeEnv, rho: Values, f1: bool, f2: bool, st: State, a: Res<Addr>, da: Res<Resp>,
                      last: (Res<Addr>, State), db: Res<Resp>, absorbing: bool)
    requires Refines(env, rho, f1, st, (a, last.1), da) && Refines(env, rho, f2, st, last, db)
    ensures a == Val(VBool(absorbing)) <==> da == Val(VBool(absorbing))
    ensures a != Val(VBool(absorbing)) ==>
      Refines(env, rho, false, st, (Absorb(a, last.0, absorbing), last.1), Absorb(da, db, absorbing))
  {}

  lemma EqualRefines(env: TypeEnv, rho: Values, f1: bool, f2: bool, st: State, a: Res<Addr>, da: Res<Resp>,
                     last: (Res<Addr>, State), db: Res<Resp>)
    requires Refines(env, rho, f1, st, (a, last.1), da) && Refines(env, rho, f2, st, last, db)
    ensures Refines(env, rho, false, st, (Equal(a, last.0), last.1), Equal(da, db))
  {}

  // Remembering a variable that was declared with the fields of `early`.
  lemma RememberRefines(early: TypeEnv, env: TypeEnv, rho: Values, x: string, st: State, o1: (Res<Addr>, State))
    requires x in rho && x in env && x !in early && x !in st.memo && forall y :: y in early ==> y in env
    requires Refines(early, rho, false, st, o1, rho[x])
    ensures Refines(env, rho, false, st, (o1.0, Remember(x, o1.0, o1.1)), rho[x])
  {
    var st2 := Remember(x, o1.0, o1.1);
    assert Kept(early, st, o1.1, x);
    forall y ensures Shows(rho, st2, y) && Kept(env, st, st2, y) {
      assert Shows(rho, o1.1, y) && Kept(early, st, o1.1, y);
    }
    forall i ensures Inert(st, st2, i) {
      assert Inert(st, o1.1, i);
      if Shared(st2, i) {
        var y :| Holds(st2, y, i);
        if y != x { assert Holds(o1.1, y, i); }
      }
    }
  }

  // ---- The induction -------------------------------------------------------------------

  // rho gives every declared variable the value of its own expression.
  ghost predicate SolvedAt(c: Decls, rho: Values, q: Request, x: string) {
    |c.envs| > 0 && x in Known(c) ==>
      x in rho && x in c.exprs && rho[x] == Denote(c.exprs[x], rho, q, RuleScope)
  }

  ghost predicate Solves(c: Decls, rho: Values, q: Request) {
    WellDeclared(c) && forall x :: SolvedAt(c, rho, q, x)
  }

  // What is required of an evaluation of e by the first k declarations, and what holds of it.
  ghost predicate Ready(
    strict: bool, e: Expr, k: nat, c: Decls, rho: Values, q: Request, scope: Scope, st: State, fuel: nat) {
    && Solves(c, rho, q) && k < |c.envs| && k <= fuel
    && Check(e, c.envs[k]).Some? && Shadows(rho, st) && Fits(strict, e, c, q, scope, st, fuel)
  }

  ghost predicate Agrees(
    strict: bool, e: Expr, k: nat, c: Decls, rho: Values, q: Request, scope: Scope, st: State, fuel: nat)
    requires k < |c.envs|
  {
    && Quiet(e, c.exprs, q, scope, st, fuel)
    && Refines(c.envs[k], rho, strict && FreshRoot(e), st,
               Eval(e, c.exprs, q, scope, st, fuel), Denote(e, rho, q, scope))
  }

  lemma {:induction false} EvalRefines(
    strict: bool, e: Expr, k: nat, c: Decls, rho: Values, q: Request, scope: Scope, st: State, fuel: nat)
    requires Ready(strict, e, k, c, rho, q, scope, st, fuel)
    ensures Agrees(strict, e, k, c, rho, q, scope, st, fuel)
    decreases k, e, 2
  {
    hide Eval, Denote, EveryBuild, Refines, Fits, Check, Unshared, FreshRoot;
    match e
    case Variable(x) => VariableRefines(strict, x, k, c, rho, q, scope, st, fuel);
    case Not(a) => NotRefines(strict, a, k, c, rho, q, scope, st, fuel);
    case Logic(absorbing, l, r) => LogicRefines(strict, absorbing, l, r, k, c, rho, q, scope, st, fuel);
    case Eq(l, r) => EqRefines(strict, l, r, k, c, rho, q, scope, st, fuel);
    case Cond(b, t, f) => CondRefines(strict, b, t, f, k, c, rho, q, scope, st, fuel);
    case StatusOf(resp) => StatusRefines(strict, resp, k, c, rho, q, scope, st, fuel);
    case With(resp, part, arg) => WithRefines(strict, resp, part, arg, k, c, rho, q, scope, st, fuel);
    case WithHeader(resp, key, val) => HeaderRefines(strict, resp, key, val, k, c, rho, q, scope, st, fuel);
    case _ => LeafRefines(strict, e, k, c, rho, q, scope, st, fuel);
  }

  lemma NotParts(
    strict: bool, a: Expr, env: TypeEnv, c: Decls, rho: Values, q: Request, scope: Scope, st: State, fuel: nat)
    requires Check(Not(a), env).Some? && Fits(strict, Not(a), c, q, scope, st, fuel)
    ensures Check(a, env).Some? && Fits(strict, a, c, q, scope, st, fuel) && !FreshRoot(Not(a))
    ensures Quiet(a, c.exprs, q, scope, st, fuel) ==> Quiet(Not(a), c.exprs, q, scope, st, fuel)
    ensures var o1 := Eval(a, c.exprs, q, scope, st, fuel);
      Eval(Not(a), c.exprs, q, scope, st, fuel) == (Negate(o1.0), o1.1)
    ensures Denote(Not(a), rho, q, scope) == Negate(Denote(a, rho, q, scope))
  {}

  lemma {:induction false} NotRefines(
    strict: bool, a: Expr, k: nat, c: Decls, rho: Values, q: Request, scope: Scope, st: State, fuel: nat)
    requires Ready(strict, Not(a), k, c, rho, q, scope, st, fuel)
    ensures Agrees(strict, Not(a), k, c, rho, q, scope, st, fuel)
    decreases k, Not(a), 1
  {
    hide Check, Unshared, FreshRoot, Eval, Denote, EveryBuild, Quiet, Fits, Shadows, Solves;
    NotParts(strict, a, c.envs[k], c, rho, q, scope, st, fuel);
    EvalRefines(strict, a, k, c, rho, q, scope, st, fuel);
  }

  lemma StatusParts(
    strict: bool, resp: Expr, env: TypeEnv, c: Decls, rho: Values, q: Request, scope: Scope, st: State, fuel: nat)
    requires Check(StatusOf(resp), env).Some? && Fits(strict, StatusOf(resp), c, q, scope, st, fuel)
    ensures Check(resp, env).Some? && Fits(strict, resp, c, q, scope, st, fuel) && !FreshRoot(StatusOf(resp))
    ensures Quiet(resp, c.exprs, q, scope, st, fuel) ==> Quiet(StatusOf(resp), c.exprs, q, scope, st, fuel)
    ensures var o1 := Eval(resp, c.exprs, q, scope, st, fuel);
      Eval(StatusOf(resp), c.exprs, q, scope, st, fuel) == (StatusField(o1.0, o1.1.heap), o1.1)
    ensures Denote(StatusOf(resp), rho, q, scope) == StatusValue(Denote(resp, rho, q, scope))
  {}

  lemma {:induction false} StatusRefines(
    strict: bool, resp: Expr, k: nat, c: Decls, rho: Values, q: Request, scope: Scope, st: State, fuel: nat)
    requires Ready(strict, StatusOf(resp), k, c, rho, q, scope, st, fuel)
    ensures Agrees(strict, StatusOf(resp), k, c, rho, q, scope, st, fuel)
    decreases k, StatusOf(resp), 1
  {
    hide Check, Unshared, FreshRoot, Eval, Denote, EveryBuild, Quiet, Fits, Shadows, Solves;
    StatusParts(strict, resp, c.envs[k], c, rho, q, scope, st, fuel);
    EvalRefines(strict, resp, k, c, rho, q, scope, st, fuel);
  }

  // The second of two operands, evaluated after the first.
  lemma {:induction false} NextRefines(
    strict: bool, l: Expr, r: Expr, k: nat, c: Decls, rho: Values, q: Request, scope: Scope, st: State, fuel: nat)
    requires k < |c.envs| && Agrees(strict, l, k, c, rho, q, scope, st, fuel)
    requires Ready(strict, r, k, c, rho, q, scope, Eval(l, c.exprs, q, scope, st, fuel).1, fuel)
    ensures var o1 := Eval(l, c.exprs, q, scope, st, fuel);
      var o2 := Eval(r, c.exprs, q, scope, o1.1, fuel);
      && Agrees(strict, r, k, c, rho, q, scope, o1.1, fuel)
      && Refines(c.envs[k], rho, strict && FreshRoot(l), st, (o1.0, o2.1), Denote(l, rho, q, scope))
      && Refines(c.envs[k], rho, strict && FreshRoot(r), st, o2, Denote(r, rho, q, scope))
    decreases k, r, 3
  {
    hide Eval, Denote;
    var o1 := Eval(l, c.exprs, q, scope, st, fuel);
    EvalRefines(strict, r, k, c, rho, q, scope, o1.1, fuel);
    RefinesAfter(c.envs[k], rho, strict && FreshRoot(l), strict && FreshRoot(r), st, o1, Denote(l, rho, q, scope),
                 Eval(r, c.exprs, q, scope, o1.1, fuel), Denote(r, rho, q, scope));
  }

  lemma {:induction false} LogicRefines(
    strict: bool, absorbing: bool, l: Expr, r: Expr, k: nat, c: Decls, rho: Values, q: Request, scope: Scope,
    st: State, fuel: nat)
    requires Ready(strict, Logic(absorbing, l, r), k, c, rho, q, scope, st, fuel)
    ensures Agrees(strict, Logic(absorbing, l, r), k, c, rho, q, scope, st, fuel)
    decreases k, Logic(absorbing, l, r), 1
  {
    LogicEquation(absorbing, l, r, c.exprs, q, scope, st, fuel);
    DenoteLogic(absorbing, l, r, rho, q, scope);
    hide Eval, Denote;
    EvalRefines(strict, l, k, c, rho, q, scope, st, fuel);
    var o1 := Eval(l, c.exprs, q, scope, st, fuel);
    if o1.0 != Val(VBool(absorbing)) {
      NextRefines(strict, l, r, k, c, rho, q, scope, st, fuel);
      var o2 := Eval(r, c.exprs, q, scope, o1.1, fuel);
      AbsorbRefines(c.envs[k], rho, strict && FreshRoot(l), strict && FreshRoot(r), st, o1.0, Denote(l, rho, q, scope),
                    o2, Denote(r, rho, q, scope), absorbing);
    }
  }

  lemma {:induction false} EqRefines(
    strict: bool, l: Expr, r: Expr, k: nat, c: Decls, rho: Values, q: Request, scope: Scope, st: State, fuel: nat)
    requires Ready(strict, Eq(l, r), k, c, rho, q, scope, st, fuel)
    ensures Agrees(strict, Eq(l, r), k, c, rho, q, scope, st, fuel)
    decreases k, Eq(l, r), 1
  {
    EqEquation(l, r, c.exprs, q, scope, st, fuel);
    DenoteEq(l, r, rho, q, scope);
    hide Eval, Denote;
    EvalRefines(strict, l, k, c, rho, q, scope, st, fuel);
    NextRefines(strict, l, r, k, c, rho, q, scope, st, fuel);
    var o1 := Eval(l, c.exprs, q, scope, st, fuel);
    EqualRefines(c.envs[k], rho, strict && FreshRoot(l), strict && FreshRoot(r), st, o1.0, Denote(l, rho, q, scope),
                 Eval(r, c.exprs, q, scope, o1.1, fuel), Denote(r, rho, q, scope));
  }

  lemma CondParts(
    strict: bool, b: Expr, t: Expr, f: Expr, env: TypeEnv, c: Decls, q: Request, scope: Scope, st: State, fuel: nat)
    requires Check(Cond(b, t, f), env).Some? && Fits(strict, Cond(b, t, f), c, q, scope, st, fuel)
    ensures Check(b, env).Some? && Check(t, env).Some? && Check(f, env).Some?
    ensures FreshRoot(Cond(b, t, f)) == (FreshRoot(t) && FreshRoot(f)) && Fits(strict, b, c, q, scope, st, fuel)
    ensures var o1 := Eval(b, c.exprs, q, scope, st, fuel);
      && (o1.0.Val? && o1.0.v.VBool? ==> Fits(strict, if o1.0.v.b then t else f, c, q, scope, o1.1, fuel))
      && (Quiet(b, c.exprs, q, scope, st, fuel) ==>
          (o1.0.Val? && o1.0.v.VBool? ==> Quiet(if o1.0.v.b then t else f, c.exprs, q, scope, o1.1, fuel)) ==>
          Quiet(Cond(b, t, f), c.exprs, q, scope, st, fuel))
  {
    hide Eval;
  }

  lemma {:induction false} CondRefines(
    strict: bool, b: Expr, t: Expr, f: Expr, k: nat, c: Decls, rho: Values, q: Request, scope: Scope, st: State,
    fuel: nat)
    requires Ready(strict, Cond(b, t, f), k, c, rho, q, scope, st, fuel)
    ensures Agrees(strict, Cond(b, t, f), k, c, rho, q, scope, st, fuel)
    decreases k, Cond(b, t, f), 1
  {
    hide Check, Unshared, FreshRoot, Eval, Denote, Refines, EveryBuild, Quiet, Fits, Shadows, Solves;
    CondEquation(b, t, f, c.exprs, q, scope, st, fuel);
    DenoteCond(b, t, f, rho, q, scope);
    CondParts(strict, b, t, f, c.envs[k], c, q, scope, st, fuel);
    EvalRefines(strict, b, k, c, rho, q, scope, st, fuel);
    var o1, d1 := Eval(b, c.exprs, q, scope, st, fuel), Denote(b, rho, q, scope);
    var env, own := c.envs[k], strict && FreshRoot(Cond(b, t, f));
    RefinesFacts(env, rho, strict && FreshRoot(b), st, o1, d1);
    if o1.0.Err? {
      RefinesWeaker(env, rho, true, own, st, o1, d1);
    } else if !o1.0.v.VBool? {
      RefinesWeaker(env, rho, true, own, st, (Err(NO_OVERLOAD), o1.1), Err(NO_OVERLOAD));
    } else if o1.0.v.b {
      NextRefines(strict, b, t, k, c, rho, q, scope, st, fuel);
      RefinesWeaker(env, rho, strict && FreshRoot(t), own, st,
                    Eval(t, c.exprs, q, scope, o1.1, fuel), Denote(t, rho, q, scope));
    } else {
      NextRefines(strict, b, f, k, c, rho, q, scope, st, fuel);
      RefinesWeaker(env, rho, strict && FreshRoot(f), own, st,
                    Eval(f, c.exprs, q, scope, o1.1, fuel), Denote(f, rho, q, scope));
    }
  }

  lemma Strict2First<R>(a: Res<R>, b: Res<R>)
    ensures !a.Diverge? && !b.Diverge? ==>
      Strict2(a, b) == if a.Err? then Some(a) else if b.Err? then Some(b) else None
  {}

  lemma WithParts(
    strict: bool, resp: Expr, part: Part, arg: Expr, env: TypeEnv, c: Decls, q: Request, scope: Scope, st: State,
    fuel: nat)
    requires Check(With(resp, part, arg), env).Some? && Fits(strict, With(resp, part, arg), c, q, scope, st, fuel)
    ensures Check(resp, env).Some? && Check(arg, env).Some? && FreshRoot(With(resp, part, arg)) == FreshRoot(resp)
    ensures Fits(strict, resp, c, q, scope, st, fuel) && (strict ==> FreshRoot(resp))
    ensures var o1 := Eval(resp, c.exprs, q, scope, st, fuel);
      var o2 := Eval(arg, c.exprs, q, scope, o1.1, fuel);
      && Fits(strict, arg, c, q, scope, o1.1, fuel)
      && (!strict && o1.0.Val? && o2.0.Val? ==> Untouched(o1.0.v, PartEdit(part, o2.0.v), o2.1))
      && (Quiet(resp, c.exprs, q, scope, st, fuel) && Quiet(arg, c.exprs, q, scope, o1.1, fuel)
          && (o1.0.Val? && o2.0.Val? ==> Untouched(o1.0.v, PartEdit(part, o2.0.v), o2.1)) ==>
          Quiet(With(resp, part, arg), c.exprs, q, scope, st, fuel))
  {
    hide Eval, Untouched, PartEdit;
  }

  lemma {:induction false} WithRefines(
    strict: bool, resp: Expr, part: Part, arg: Expr, k: nat, c: Decls, rho: Values, q: Request, scope: Scope,
    st: State, fuel: nat)
    requires Ready(strict, With(resp, part, arg), k, c, rho, q, scope, st, fuel)
    ensures Agrees(strict, With(resp, part, arg), k, c, rho, q, scope, st, fuel)
    decreases k, With(resp, part, arg), 1
  {
    hide Check, Unshared, FreshRoot, Eval, Denote, Refines, EveryBuild, Quiet, Fits, Shadows, Solves, Strict2;
    hide Untouched, PartEdit, Build, BuildValue;
    WithEquation(resp, part, arg, c.exprs, q, scope, st, fuel);
    DenoteWith(resp, part, arg, rho, q, scope);
    WithParts(strict, resp, part, arg, c.envs[k], c, q, scope, st, fuel);
    var env := c.envs[k];
    EvalRefines(strict, resp, k, c, rho, q, scope, st, fuel);
    var o1, d1 := Eval(resp, c.exprs, q, scope, st, fuel), Denote(resp, rho, q, scope);
    RefinesFacts(env, rho, strict && FreshRoot(resp), st, o1, d1);
    NextRefines(strict, resp, arg, k, c, rho, q, scope, st, fuel);
    var o2, d2 := Eval(arg, c.exprs, q, scope, o1.1, fuel), Denote(arg, rho, q, scope);
    RefinesFacts(env, rho, strict && FreshRoot(resp), st, (o1.0, o2.1), d1);
    RefinesFacts(env, rho, strict && FreshRoot(arg), st, o2, d2);
    Strict2First(o1.0, o2.0);
    Strict2First(d1, d2);
    if o1.0.Val? && o2.0.Val? {
      BuildRefines(env, rho, strict, st, o2.1, o1.0.v, d1.v, PartEdit(part, o2.0.v));
    }
    if o1.0.Err? { RefinesWeaker(env, rho, true, strict, st, (o1.0, o2.1), d1); }
    if o2.0.Err? { RefinesWeaker(env, rho, true, strict, st, o2, d2); }
  }

  lemma HeaderParts(
    strict: bool, resp: Expr, key: Expr, val: Expr, env: TypeEnv, c: Decls, q: Request, scope: Scope, st: State,
    fuel: nat)
    requires Check(WithHeader(resp, key, val), env).Some?
    requires Fits(strict, WithHeader(resp, key, val), c, q, scope, st, fuel)
    ensures Check(resp, env).Some? && Check(key, env).Some? && Check(val, env).Some?
    ensures FreshRoot(WithHeader(resp, key, val)) == FreshRoot(resp)
    ensures Fits(strict, resp, c, q, scope, st, fuel) && (strict ==> FreshRoot(resp))
    ensures var o1 := Eval(resp, c.exprs, q, scope, st, fuel);
      var o2 := Eval(key, c.exprs, q, scope, o1.1, fuel);
      var o3 := Eval(val, c.exprs, q, scope, o2.1, fuel);
      && (o1.0.Val? ==> Fits(strict, key, c, q, scope, o1.1, fuel))
      && (o1.0.Val? && o2.0.Val? ==> Fits(strict, val, c, q, scope, o2.1, fuel))
      && (!strict && o1.0.Val? && o2.0.Val? && o3.0.Val? ==> Untouched(o1.0.v, HeaderEdit(o2.0.v, o3.0.v), o3.1))
      && (Quiet(resp, c.exprs, q, scope, st, fuel)
          && (o1.0.Val? ==> Quiet(key, c.exprs, q, scope, o1.1, fuel))
          && (o1.0.Val? && o2.0.Val? ==> Quiet(val, c.exprs, q, scope, o2.1, fuel))
          && (o1.0.Val? && o2.0.Val? && o3.0.Val? ==> Untouched(o1.0.v, HeaderEdit(o2.0.v, o3.0.v), o3.1)) ==>
          Quiet(WithHeader(resp, key, val), c.exprs, q, scope, st, fuel))
  {
    hide Eval, Untouched, HeaderEdit;
  }

  lemma {:induction false} HeaderRefines(
    strict: bool, resp: Expr, key: Expr, val: Expr, k: nat, c: Decls, rho: Values, q: Request, scope: Scope,
    st: State, fuel: nat)
    requires Ready(strict, WithHeader(resp, key, val), k, c, rho, q, scope, st, fuel)
    ensures Agrees(strict, WithHeader(resp, key, val), k, c, rho, q, scope, st, fuel)
    decreases k, WithHeader(resp, key, val), 1
  {
    hide Check, Unshared, FreshRoot, Eval, Denote, Refines, EveryBuild, Quiet, Fits, Shadows, Solves;
    hide Untouched, Build, BuildValue;
    HeaderEquation(resp, key, val, c.exprs, q, scope, st, fuel);
    DenoteWithHeader(resp, key, val, rho, q, scope);
    HeaderParts(strict, resp, key, val, c.envs[k], c, q, scope, st, fuel);
    EvalRefines(strict, resp, k, c, rho, q, scope, st, fuel);
    var env, o1, d1 := c.envs[k], Eval(resp, c.exprs, q, scope, st, fuel), Denote(resp, rho, q, scope);
    RefinesFacts(env, rho, strict && FreshRoot(resp), st, o1, d1);
    if o1.0.Err? {
      RefinesWeaker(env, rho, true, strict, st, o1, d1);
    } else {
      NextRefines(strict, resp, key, k, c, rho, q, scope, st, fuel);
      var o2, d2 := Eval(key, c.exprs, q, scope, o1.1, fuel), Denote(key, rho, q, scope);
      RefinesFacts(env, rho, strict && FreshRoot(key), st, o2, d2);
      if o2.0.Err? {
        RefinesWeaker(env, rho, true, strict, st, o2, d2);
      } else {
        NextRefines(strict, key, val, k, c, rho, q, scope, o1.1, fuel);
        var o3, d3 := Eval(val, c.exprs, q, scope, o2.1, fuel), Denote(val, rho, q, scope);
        RefinesAfter(env, rho, strict && FreshRoot(resp), strict && FreshRoot(val), st, o1, d1, o3, d3);
        RefinesFacts(env, rho, strict && FreshRoot(val), st, o3, d3);
        if o3.0.Err? {
          RefinesWeaker(env, rho, true, strict, st, o3, d3);
        } else {
          BuildRefines(env, rho, strict, st, o3.1, o1.0.v, d1.v, HeaderEdit(o2.0.v, o3.0.v));
        }
      }
    }
  }

  lemma {:induction false} VariableRefines(
    strict: bool, x: string, k: nat, c: Decls, rho: Values, q: Request, scope: Scope, st: State, fuel: nat)
    requires Ready(strict, Variable(x), k, c, rho, q, scope, st, fuel)
    ensures Agrees(strict, Variable(x), k, c, rho, q, scope, st, fuel)
    decreases k, Variable(x), 0
  {
    var j := Declared(c, k, x);
    assert SolvedAt(c, rho, q, x) && Shows(rho, st, x);
    if scope.RuleScope? && x !in st.memo {
      EvalRefines(strict, c.exprs[x], j, c, rho, q, scope, st, fuel - 1);
      forall y | y in c.envs[j] ensures y in c.envs[k] { EnvMonotone(c, j, k, y); }
      RefinesWeaker(c.envs[j], rho, strict && FreshRoot(c.exprs[x]), false, st,
                    Eval(c.exprs[x], c.exprs, q, scope, st, fuel - 1), rho[x]);
      RememberRefines(c.envs[j], c.envs[k], rho, x, st, Eval(c.exprs[x], c.exprs, q, scope, st, fuel - 1));
    } else {
      assert Leaves(c.envs[k], st, st);
      if x in st.memo && st.memo[x].Val? && st.memo[x].v.VResp? { assert Holds(st, x, st.memo[x].v.r); }
    }
  }

  lemma LeafRefines(
    strict: bool, e: Expr, k: nat, c: Decls, rho: Values, q: Request, scope: Scope, st: State, fuel: nat)
    requires Ready(strict, e, k, c, rho, q, scope, st, fuel)
    requires e.BoolLit? || e.IntLit? || e.StrLit? || e.NullLit? || e.Object? || e.Foreign? || e.NewResponse?
    ensures Agrees(strict, e, k, c, rho, q, scope, st, fuel)
  {
    hide Check, Unshared, Solves;
    if e.NewResponse? {
      NewRefines(c.envs[k], rho, st);
    } else {
      assert Eval(e, c.exprs, q, scope, st, fuel).1 == st;
      assert Leaves(c.envs[k], st, st);
    }
  }

  lemma NewRefines(env: TypeEnv, rho: Values, st: State)
    requires Shadows(rho, st)
    ensures var out := (Val(VResp(|st.heap|)), st.(heap := st.heap + [FRESH_RESPONSE]));
      Refines(env, rho, true, st, out, Val(VResp(FRESH_RESPONSE)))
  {
    var st' := st.(heap := st.heap + [FRESH_RESPONSE]);
    forall x ensures Shows(rho, st', x) && Kept(env, st, st', x) && !Holds(st', x, |st.heap|) {
      assert Shows(rho, st, x);
    }
    forall i ensures Inert(st, st', i) {
      if Shared(st', i) { var x :| Holds(st', x, i); assert Holds(st, x, i); }
    }
  }
}
