/** The typing rules of the fragment as a relation, apart from the checker. */
module Typing {
  import opened Cel
  import opened Options

  ghost predicate HasType(e: Expr, env: map<string, Ty>, t: Ty) {
    match e
    case BoolLit(_) => t == TBool
    case IntLit(_) => t == TInt
    case StrLit(_) => t == TString
    case NullLit => t == TNull
    case Object(_, u) => t == u && (u == TBool || u == TInt || u == TString)
    case Foreign(_, u) => t == u && (u == TBool || u == TInt || u == TString)
    case Variable(x) => x in env && env[x] == t
    case Not(a) => t == TBool && HasType(a, env, TBool)
    case Logic(_, l, r) => t == TBool && HasType(l, env, TBool) && HasType(r, env, TBool)
    case Eq(l, r) =>
      && t == TBool
      && ((HasType(l, env, TBool) && HasType(r, env, TBool)) || (HasType(l, env, TInt) && HasType(r, env, TInt))
          || (HasType(l, env, TString) && HasType(r, env, TString)))
    case Cond(c, a, b) =>
      && HasType(c, env, TBool)
      && ((HasType(a, env, t) && HasType(b, env, t))
          || (t == TResponse && HasType(a, env, TNull) && HasType(b, env, TResponse))
          || (t == TResponse && HasType(a, env, TResponse) && HasType(b, env, TNull)))
    case NewResponse => t == TResponse
    case StatusOf(r) => t == TInt && HasType(r, env, TResponse)
    case With(r, part, arg) =>
      && t == TResponse && (HasType(r, env, TResponse) || HasType(r, env, TNull))
      && HasType(arg, env, if part == StatusPart then TInt else TString)
    case WithHeader(r, k, v) =>
      && t == TResponse && (HasType(r, env, TResponse) || HasType(r, env, TNull))
      && HasType(k, env, TString) && HasType(v, env, TString)
  }

  ghost predicate Agrees(e: Expr, env: map<string, Ty>) {
    forall t :: Check(e, env) == Some(t) <==> HasType(e, env, t)
  }

  lemma EqAgrees(l: Expr, r: Expr, env: map<string, Ty>)
    requires Agrees(l, env) && Agrees(r, env)
    ensures Agrees(Eq(l, r), env)
  {}

  lemma CondAgrees(c: Expr, a: Expr, b: Expr, env: map<string, Ty>)
    requires Agrees(c, env) && Agrees(a, env) && Agrees(b, env)
    ensures Agrees(Cond(c, a, b), env)
  {
    forall t ensures Check(Cond(c, a, b), env) == Some(t) <==> HasType(Cond(c, a, b), env, t) {
      CondChecks(c, a, b, env);
      CondHasType(c, a, b, env, t);
      hide Check, HasType;
    }
  }

  lemma CondChecks(c: Expr, a: Expr, b: Expr, env: map<string, Ty>)
    ensures Check(Cond(c, a, b), env) ==
      var x, y := Check(a, env), Check(b, env);
      if Check(c, env) == Some(TBool) && x.Some? && y.Some? then Join(x.value, y.value) else None
  {}

  lemma CondHasType(c: Expr, a: Expr, b: Expr, env: map<string, Ty>, t: Ty)
    ensures HasType(Cond(c, a, b), env, t) <==>
      && HasType(c, env, TBool)
      && ((HasType(a, env, t) && HasType(b, env, t))
          || (t == TResponse && HasType(a, env, TNull) && HasType(b, env, TResponse))
          || (t == TResponse && HasType(a, env, TResponse) && HasType(b, env, TNull)))
  {}

  lemma WithAgrees(r: Expr, part: Part, arg: Expr, env: map<string, Ty>)
    requires Agrees(r, env) && Agrees(arg, env)
    ensures Agrees(With(r, part, arg), env)
  {}

  // The checker finds exactly the type that the rules give, and none where they give none.
  lemma {:induction false} CheckIff(e: Expr, env: map<string, Ty>)
    ensures forall t :: Check(e, env) == Some(t) <==> HasType(e, env, t)
    decreases e
  {
    match e
    case Not(a) => CheckIff(a, env);
    case Logic(_, l, r) => CheckIff(l, env); CheckIff(r, env);
    case Eq(l, r) => CheckIff(l, env); CheckIff(r, env); EqAgrees(l, r, env);
    case Cond(c, a, b) => CheckIff(c, env); CheckIff(a, env); CheckIff(b, env); CondAgrees(c, a, b, env);
    case StatusOf(r) => CheckIff(r, env);
    case With(r, part, arg) => CheckIff(r, env); CheckIff(arg, env); WithAgrees(r, part, arg, env);
    case WithHeader(r, k, v) => CheckIff(r, env); CheckIff(k, env); CheckIff(v, env);
    case _ =>
  }

  lemma TypesAreUnique(e: Expr, env: map<string, Ty>, t: Ty, u: Ty)
    requires HasType(e, env, t) && HasType(e, env, u)
    ensures t == u
  {
    hide HasType;
    CheckIff(e, env);
  }
}
