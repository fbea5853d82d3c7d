/** Type soundness and termination of evaluation for accepted policies: an expression that
    checks against the first k declarations never diverges once the fuel reaches k, yields a
    value of its type or an error, and runs a variable at most once. */
module Soundness {
  import opened Cel
  import opened Options

  // The declarations of an accepted policy: the program of each name, and the fields known
  // before each declaration and after the last.
  datatype Decls = Decls(names: seq<string>, exprs: map<string, Expr>, envs: seq<TypeEnv>)

  ghost predicate DeclOk(c: Decls, i: nat) {
    && i < |c.names| && i + 1 < |c.envs|
    && c.names[i] in c.exprs && c.names[i] !in c.envs[i]
    && var t := Check(c.exprs[c.names[i]], c.envs[i]);
      t.Some? && c.envs[i + 1] == c.envs[i][c.names[i] := t.value]
  }

  ghost predicate WellDeclared(c: Decls) {
    && |c.envs| == |c.names| + 1 && c.envs[0] == map[]
    && forall i :: 0 <= i < |c.names| ==> DeclOk(c, i)
  }

  ghost function Known(c: Decls): TypeEnv
    requires |c.envs| > 0
  {
    c.envs[|c.envs| - 1]
  }

  ghost predicate Typed(r: Res<Addr>, ty: Ty, n: nat) {
    match r
    case Diverge => false
    case Err(_) => true
    case Val(v) =>
      match ty
      case TBool => v.VBool?
      case TInt => v.VInt?
      case TString => v.VStr?
      case TNull => v.VNull?
      case TResponse => v.VNull? || (v.VResp? && v.r < n)
  }

  ghost predicate EntryOk(known: TypeEnv, st: State, x: string) {
    x in st.memo ==> x in known && Typed(st.memo[x], known[x], |st.heap|)
  }

  // What holds between evaluations of one request. Every forced variable ran exactly once.
  ghost predicate Consistent(known: TypeEnv, st: State) {
    && (forall x :: EntryOk(known, st, x))
    && multiset(st.runs) == multiset(st.memo.Keys)
  }

  ghost predicate Kept(env: TypeEnv, st: State, st': State, x: string) {
    && (x in st.memo ==> x in st'.memo && st'.memo[x] == st.memo[x])
    && (x in st'.memo && x !in st.memo ==> x in env)
  }

  // Evaluation only adds: responses, and memo entries of variables known to the expression.
  ghost predicate Extends(env: TypeEnv, st: State, st': State) {
    |st.heap| <= |st'.heap| && forall x :: Kept(env, st, st', x)
  }

  // The statement proved of one evaluation.
  ghost predicate Sound(known: TypeEnv, env: TypeEnv, ty: Ty, st: State, out: (Res<Addr>, State)) {
    && Typed(out.0, ty, |out.1.heap|)
    && Consistent(known, out.1)
    && Extends(env, st, out.1)
  }

  // ---- Declarations --------------------------------------------------------------------

  lemma {:induction false} EnvMonotone(c: Decls, j: nat, k: nat, x: string)
    requires WellDeclared(c) && j <= k < |c.envs| && x in c.envs[j]
    ensures x in c.envs[k] && c.envs[k][x] == c.envs[j][x]
    decreases k - j
  {
    if j < k {
      assert DeclOk(c, j);
      EnvMonotone(c, j + 1, k, x);
    }
  }

  // A known variable has a declaration that checks against strictly earlier names.
  lemma {:induction false} Declared(c: Decls, k: nat, x: string) returns (j: nat)
    requires WellDeclared(c) && k < |c.envs| && x in c.envs[k]
    ensures j < k && x !in c.envs[j] && x in c.exprs
    ensures Check(c.exprs[x], c.envs[j]) == Some(c.envs[k][x])
    ensures x in Known(c) && Known(c)[x] == c.envs[k][x]
    decreases k
  {
    assert DeclOk(c, k - 1);
    if c.names[k - 1] == x { j := k - 1; } else { j := Declared(c, k - 1, x); }
    EnvMonotone(c, k, |c.envs| - 1, x);
  }

  // ---- Composing steps -----------------------------------------------------------------

  lemma SoundAfter(
    known: TypeEnv, env: TypeEnv, t: Ty, ty: Ty, st: State, first: (Res<Addr>, State), out: (Res<Addr>, State))
    requires Sound(known, env, t, st, first) && Sound(known, env, ty, first.1, out)
    ensures Sound(known, env, ty, st, out) && Typed(first.0, t, |out.1.heap|)
  {
    forall x ensures Kept(env, st, out.1, x) {
      assert Kept(env, st, first.1, x) && Kept(env, first.1, out.1, x);
    }
  }

  // Replacing the result, or adding and changing responses, keeps the rest.
  lemma SoundWith(
    known: TypeEnv, env: TypeEnv, t: Ty, ty: Ty, st: State, first: (Res<Addr>, State), r: Res<Addr>, heap: seq<Resp>)
    requires Sound(known, env, t, st, first)
    requires |first.1.heap| <= |heap| && Typed(r, ty, |heap|)
    ensures Sound(known, env, ty, st, (r, first.1.(heap := heap)))
  {
    var st' := first.1.(heap := heap);
    forall x ensures EntryOk(known, st', x) && Kept(env, st, st', x) {
      assert EntryOk(known, first.1, x) && Kept(env, st, first.1, x);
    }
  }

  lemma SoundHere(known: TypeEnv, env: TypeEnv, ty: Ty, st: State, r: Res<Addr>, heap: seq<Resp>)
    requires Consistent(known, st) && |st.heap| <= |heap| && Typed(r, ty, |heap|)
    ensures Sound(known, env, ty, st, (r, st.(heap := heap)))
  {
    assert Extends(env, st, st);
    SoundWith(known, env, TBool, ty, st, (Err(""), st), r, heap);
  }

  lemma BuildSound(
    known: TypeEnv, env: TypeEnv, t: Ty, st: State, a: Value<Addr>, edit: Option<Edit>, last: (Res<Addr>, State))
    requires Sound(known, env, t, st, last)
    ensures Sound(known, env, TResponse, st, Build(a, edit, last.1))
  {
    var out := Build(a, edit, last.1);
    SoundWith(known, env, t, TResponse, st, last, out.0, out.1.heap);
  }

  // Remembering a variable that was declared with the fields of `early`.
  lemma RememberSound(known: TypeEnv, early: TypeEnv, env: TypeEnv, x: string, st: State, o1: (Res<Addr>, State))
    requires x in env && x in known && x !in early && x !in st.memo
    requires forall y :: y in early ==> y in env
    requires Sound(known, early, known[x], st, o1)
    ensures Sound(known, env, known[x], st, (o1.0, Remember(x, o1.0, o1.1)))
  {
    var st2 := Remember(x, o1.0, o1.1);
    assert Kept(early, st, o1.1, x);
    assert st2.memo.Keys == o1.1.memo.Keys + {x};
    forall y ensures EntryOk(known, st2, y) && Kept(env, st, st2, y) {
      assert EntryOk(known, o1.1, y) && Kept(early, st, o1.1, y);
    }
  }

  // ---- The induction -------------------------------------------------------------------

  lemma {:induction false} EvalSound(e: Expr, ty: Ty, k: nat, c: Decls, q: Request, scope: Scope, st: State, fuel: nat)
    requires WellDeclared(c) && k < |c.envs| && k <= fuel
    requires Check(e, c.envs[k]) == Some(ty) && Consistent(Known(c), st)
    ensures Sound(Known(c), c.envs[k], ty, st, Eval(e, c.exprs, q, scope, st, fuel))
    decreases k, e, 2
  {
    var vars, env, known := c.exprs, c.envs[k], Known(c);
    match e
    case Variable(x) => VariableSound(x, k, c, q, scope, st, fuel);
    case Not(a) =>
      EvalSound(a, TBool, k, c, q, scope, st, fuel);
      var o1 := Eval(a, vars, q, scope, st, fuel);
      SoundWith(known, env, TBool, TBool, st, o1, Negate(o1.0), o1.1.heap);
    case Logic(absorbing, l, r) =>
      LogicSound(absorbing, l, r, k, c, q, scope, st, fuel);
    case Eq(l, r) =>
      EqSound(l, r, k, c, q, scope, st, fuel);
    case Cond(b, t, f) => CondSound(b, t, f, ty, k, c, q, scope, st, fuel);
    case StatusOf(resp) =>
      EvalSound(resp, TResponse, k, c, q, scope, st, fuel);
      var o1 := Eval(resp, vars, q, scope, st, fuel);
      SoundWith(known, env, TResponse, TInt, st, o1, StatusField(o1.0, o1.1.heap), o1.1.heap);
    case With(resp, part, arg) =>
      WithSound(resp, part, arg, k, c, q, scope, st, fuel);
    case WithHeader(resp, key, val) => HeaderSound(resp, key, val, k, c, q, scope, st, fuel);
    case _ =>
      var (r, st') := Eval(e, vars, q, scope, st, fuel);
      SoundHere(known, env, ty, st, r, st'.heap);
  }

  lemma {:induction false} PairSound(
    e: Expr, l: Expr, r: Expr, tl: Ty, tr: Ty, k: nat, c: Decls, q: Request, scope: Scope, st: State, fuel: nat)
    requires WellDeclared(c) && k < |c.envs| && k <= fuel && l < e && r < e
    requires Check(l, c.envs[k]) == Some(tl) && Check(r, c.envs[k]) == Some(tr) && Consistent(Known(c), st)
    ensures var o1 := Eval(l, c.exprs, q, scope, st, fuel);
      var o2 := Eval(r, c.exprs, q, scope, o1.1, fuel);
      && Sound(Known(c), c.envs[k], tl, st, o1) && Sound(Known(c), c.envs[k], tr, st, o2)
      && Typed(o1.0, tl, |o2.1.heap|)
    decreases k, e, 0
  {
    EvalSound(l, tl, k, c, q, scope, st, fuel);
    var o1 := Eval(l, c.exprs, q, scope, st, fuel);
    EvalSound(r, tr, k, c, q, scope, o1.1, fuel);
    SoundAfter(Known(c), c.envs[k], tl, tr, st, o1, Eval(r, c.exprs, q, scope, o1.1, fuel));
  }

  lemma {:induction false} LogicSound(
    absorbing: bool, l: Expr, r: Expr, k: nat, c: Decls, q: Request, scope: Scope, st: State, fuel: nat)
    requires WellDeclared(c) && k < |c.envs| && k <= fuel
    requires Check(Logic(absorbing, l, r), c.envs[k]) == Some(TBool) && Consistent(Known(c), st)
    ensures Sound(Known(c), c.envs[k], TBool, st, Eval(Logic(absorbing, l, r), c.exprs, q, scope, st, fuel))
    decreases k, Logic(absorbing, l, r), 1
  {
    LogicEquation(absorbing, l, r, c.exprs, q, scope, st, fuel);
    var known, env := Known(c), c.envs[k];
    var tl, tr := TBool, TBool;
    hide Eval;
    PairSound(Logic(absorbing, l, r), l, r, tl, tr, k, c, q, scope, st, fuel);
    var o1 := Eval(l, c.exprs, q, scope, st, fuel);
    var o2 := Eval(r, c.exprs, q, scope, o1.1, fuel);
    SoundWith(known, env, tr, TBool, st, o2, Absorb(o1.0, o2.0, absorbing), o2.1.heap);
  }

  lemma {:induction false} EqSound(l: Expr, r: Expr, k: nat, c: Decls, q: Request, scope: Scope, st: State, fuel: nat)
    requires WellDeclared(c) && k < |c.envs| && k <= fuel
    requires Check(Eq(l, r), c.envs[k]) == Some(TBool) && Consistent(Known(c), st)
    ensures Sound(Known(c), c.envs[k], TBool, st, Eval(Eq(l, r), c.exprs, q, scope, st, fuel))
    decreases k, Eq(l, r), 1
  {
    EqEquation(l, r, c.exprs, q, scope, st, fuel);
    var known, env := Known(c), c.envs[k];
    var tl, tr := Check(l, env).value, Check(r, env).value;
    hide Eval;
    PairSound(Eq(l, r), l, r, tl, tr, k, c, q, scope, st, fuel);
    var o1 := Eval(l, c.exprs, q, scope, st, fuel);
    var o2 := Eval(r, c.exprs, q, scope, o1.1, fuel);
    SoundWith(known, env, tr, TBool, st, o2, Equal(o1.0, o2.0), o2.1.heap);
  }

  lemma {:induction false} WithSound(
    resp: Expr, part: Part, arg: Expr, k: nat, c: Decls, q: Request, scope: Scope, st: State, fuel: nat)
    requires WellDeclared(c) && k < |c.envs| && k <= fuel
    requires Check(With(resp, part, arg), c.envs[k]) == Some(TResponse) && Consistent(Known(c), st)
    ensures Sound(Known(c), c.envs[k], TResponse, st, Eval(With(resp, part, arg), c.exprs, q, scope, st, fuel))
    decreases k, With(resp, part, arg), 1
  {
    WithEquation(resp, part, arg, c.exprs, q, scope, st, fuel);
    var known, env := Known(c), c.envs[k];
    var tl, tr := Check(resp, env).value, part.ArgType();
    hide Eval;
    PairSound(With(resp, part, arg), resp, arg, tl, tr, k, c, q, scope, st, fuel);
    var o1 := Eval(resp, c.exprs, q, scope, st, fuel);
    var o2 := Eval(arg, c.exprs, q, scope, o1.1, fuel);
    if o1.0.Val? && o2.0.Val? {
      BuildSound(known, env, tr, st, o1.0.v, PartEdit(part, o2.0.v), o2);
    } else {
      SoundWith(known, env, tr, TResponse, st, o2, Strict2(o1.0, o2.0).value, o2.1.heap);
    }
  }

  lemma {:induction false} CondSound(
    b: Expr, t: Expr, f: Expr, ty: Ty, k: nat, c: Decls, q: Request, scope: Scope, st: State, fuel: nat)
    requires WellDeclared(c) && k < |c.envs| && k <= fuel
    requires Check(Cond(b, t, f), c.envs[k]) == Some(ty) && Consistent(Known(c), st)
    ensures Sound(Known(c), c.envs[k], ty, st, Eval(Cond(b, t, f), c.exprs, q, scope, st, fuel))
    decreases k, Cond(b, t, f), 1
  {
    CondEquation(b, t, f, c.exprs, q, scope, st, fuel);
    hide Eval;
    EvalSound(b, TBool, k, c, q, scope, st, fuel);
    var o1 := Eval(b, c.exprs, q, scope, st, fuel);
    if o1.0.Val? {
      if o1.0.v.b {
        BranchSound(t, Check(t, c.envs[k]).value, ty, k, c, q, scope, st, o1, fuel);
      } else {
        BranchSound(f, Check(f, c.envs[k]).value, ty, k, c, q, scope, st, o1, fuel);
      }
    }
  }

  lemma {:induction false} BranchSound(
    e: Expr, te: Ty, ty: Ty, k: nat, c: Decls, q: Request, scope: Scope, st: State, o1: (Res<Addr>, State), fuel: nat)
    requires WellDeclared(c) && k < |c.envs| && k <= fuel
    requires Check(e, c.envs[k]) == Some(te) && (te == ty || (te.TNull? && ty.TResponse?))
    requires Sound(Known(c), c.envs[k], TBool, st, o1)
    ensures Sound(Known(c), c.envs[k], ty, st, Eval(e, c.exprs, q, scope, o1.1, fuel))
    decreases k, e, 3
  {
    EvalSound(e, te, k, c, q, scope, o1.1, fuel);
    var o2 := Eval(e, c.exprs, q, scope, o1.1, fuel);
    SoundAfter(Known(c), c.envs[k], TBool, te, st, o1, o2);
    SoundWith(Known(c), c.envs[k], te, ty, st, o2, o2.0, o2.1.heap);
  }

  lemma {:induction false} HeaderSound(
    resp: Expr, key: Expr, val: Expr, k: nat, c: Decls, q: Request, scope: Scope, st: State, fuel: nat)
    requires WellDeclared(c) && k < |c.envs| && k <= fuel
    requires Check(WithHeader(resp, key, val), c.envs[k]) == Some(TResponse) && Consistent(Known(c), st)
    ensures Sound(Known(c), c.envs[k], TResponse, st, Eval(WithHeader(resp, key, val), c.exprs, q, scope, st, fuel))
    decreases k, WithHeader(resp, key, val), 1
  {
    HeaderEquation(resp, key, val, c.exprs, q, scope, st, fuel);
    hide Eval;
    var vars, env, known := c.exprs, c.envs[k], Known(c);
    var tr := Check(resp, env).value;
    EvalSound(resp, tr, k, c, q, scope, st, fuel);
    var o1 := Eval(resp, vars, q, scope, st, fuel);
    if o1.0.Val? {
      PairSound(WithHeader(resp, key, val), key, val, TString, TString, k, c, q, scope, o1.1, fuel);
      var o2 := Eval(key, vars, q, scope, o1.1, fuel);
      var o3 := Eval(val, vars, q, scope, o2.1, fuel);
      SoundAfter(known, env, tr, TString, st, o1, o2);
      SoundAfter(known, env, tr, TString, st, o1, o3);
      if o2.0.Val? && o3.0.Val? {
        BuildSound(known, env, TString, st, o1.0.v, HeaderEdit(o2.0.v, o3.0.v), o3);
      }
    }
  }

  lemma {:induction false} VariableSound(x: string, k: nat, c: Decls, q: Request, scope: Scope, st: State, fuel: nat)
    requires WellDeclared(c) && k < |c.envs| && k <= fuel
    requires x in c.envs[k] && Consistent(Known(c), st)
    ensures Sound(Known(c), c.envs[k], c.envs[k][x], st, Eval(Variable(x), c.exprs, q, scope, st, fuel))
    decreases k, Variable(x), 0
  {
    var j := Declared(c, k, x);
    assert EntryOk(Known(c), st, x);
    if scope.RuleScope? && x !in st.memo {
      EvalSound(c.exprs[x], c.envs[k][x], j, c, q, scope, st, fuel - 1);
      forall y | y in c.envs[j] ensures y in c.envs[k] { EnvMonotone(c, j, k, y); }
      RememberSound(Known(c), c.envs[j], c.envs[k], x, st, Eval(c.exprs[x], c.exprs, q, scope, st, fuel - 1));
    } else {
      SoundHere(Known(c), c.envs[k], c.envs[k][x], st, Eval(Variable(x), c.exprs, q, scope, st, fuel).0, st.heap);
    }
  }
}
