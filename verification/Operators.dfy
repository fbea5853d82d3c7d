/** What each operator of the fragment yields, operand by operand. The laws are about the reference
    semantics, which evaluation refines, and name none of the functions the two share. */
module Operators {
  import opened Cel
  import opened Options
  import opened Reference

  // ---- Values --------------------------------------------------------------------------

  lemma Literals(b: bool, i: int, s: string, rho: Values, q: Request, scope: Scope)
    ensures Denote(BoolLit(b), rho, q, scope) == Val(VBool(b))
    ensures Denote(IntLit(i), rho, q, scope) == Val(VInt(i))
    ensures Denote(StrLit(s), rho, q, scope) == Val(VStr(s))
    ensures Denote(NullLit, rho, q, scope) == Val(VNull)
    ensures Denote(NewResponse, rho, q, scope) == Val(VResp(Resp(0, None, "")))
  {}

  // An attribute, or a call available to rules, is the very value that the request holds, and an
  // error if the request has none, holds a failure, or holds a value of another type.
  ghost predicate Yields(inputs: map<string, Input>, path: string, ty: Ty, r: Res<Resp>) {
    && (path in inputs && ty == TBool && inputs[path].KnownBool? ==> r == Val(VBool(inputs[path].b)))
    && (path in inputs && ty == TInt && inputs[path].KnownInt? ==> r == Val(VInt(inputs[path].i)))
    && (path in inputs && ty == TString && inputs[path].KnownStr? ==> r == Val(VStr(inputs[path].s)))
    && (path in inputs && inputs[path].Failing? ==> r == Err(inputs[path].msg))
    && (path !in inputs ==> r == Err("no such key"))
    && (path in inputs && !inputs[path].Failing? && !OfType(inputs[path], ty) ==> r == Err("no such overload"))
  }

  ghost predicate OfType(i: Input, ty: Ty) {
    (ty.TBool? && i.KnownBool?) || (ty.TInt? && i.KnownInt?) || (ty.TString? && i.KnownStr?)
  }

  lemma Inputs(path: string, ty: Ty, rho: Values, q: Request)
    ensures forall scope :: Yields(q.attrs, path, ty, Denote(Object(path, ty), rho, q, scope))
    ensures Yields(q.calls, path, ty, Denote(Foreign(path, ty), rho, q, RuleScope))
    ensures Denote(Foreign(path, ty), rho, q, MatchScope) == Err("no such attribute")
  {}

  lemma Variables(x: string, rho: Values, q: Request)
    ensures x in rho ==> Denote(Variable(x), rho, q, RuleScope) == rho[x]
    ensures x !in rho ==> Denote(Variable(x), rho, q, RuleScope) == Err("no such key")
    ensures Denote(Variable(x), rho, q, MatchScope) == Err("no such attribute")
  {}

  // ---- Logic ---------------------------------------------------------------------------

  const TRUE: Res<Resp> := Val(VBool(true))
  const FALSE: Res<Resp> := Val(VBool(false))

  function And(l: Expr, r: Expr): Expr { Logic(false, l, r) }
  function Or(l: Expr, r: Expr): Expr { Logic(true, l, r) }

  ghost predicate Truth(r: Res<Resp>) { r == TRUE || r == FALSE || r.Err? }

  lemma NotTable(a: Expr, rho: Values, q: Request, scope: Scope)
    requires Truth(Denote(a, rho, q, scope))
    ensures var x, r := Denote(a, rho, q, scope), Denote(Not(a), rho, q, scope);
      (x == TRUE ==> r == FALSE) && (x == FALSE ==> r == TRUE) && (x.Err? ==> r == x)
  {}

  // False wins over an error on either side; otherwise the first error stands.
  lemma AndTable(l: Expr, r: Expr, rho: Values, q: Request, scope: Scope)
    requires Truth(Denote(l, rho, q, scope)) && Truth(Denote(r, rho, q, scope))
    ensures var x, y, v := Denote(l, rho, q, scope), Denote(r, rho, q, scope), Denote(And(l, r), rho, q, scope);
      && (x == TRUE && y == TRUE ==> v == TRUE)
      && (x == FALSE || y == FALSE ==> v == FALSE)
      && (x.Err? && y != FALSE ==> v == x)
      && (x == TRUE && y.Err? ==> v == y)
  {
    DenoteLogic(false, l, r, rho, q, scope);
    hide Denote;
  }

  lemma OrTable(l: Expr, r: Expr, rho: Values, q: Request, scope: Scope)
    requires Truth(Denote(l, rho, q, scope)) && Truth(Denote(r, rho, q, scope))
    ensures var x, y, v := Denote(l, rho, q, scope), Denote(r, rho, q, scope), Denote(Or(l, r), rho, q, scope);
      && (x == FALSE && y == FALSE ==> v == FALSE)
      && (x == TRUE || y == TRUE ==> v == TRUE)
      && (x.Err? && y != TRUE ==> v == x)
      && (x == FALSE && y.Err? ==> v == y)
  {
    DenoteLogic(true, l, r, rho, q, scope);
    hide Denote;
  }

  // Equal booleans, integers or strings compare true, different ones false; the first operand's
  // error comes first.
  lemma EqTable(l: Expr, r: Expr, rho: Values, q: Request, scope: Scope)
    ensures var x, y, v := Denote(l, rho, q, scope), Denote(r, rho, q, scope), Denote(Eq(l, r), rho, q, scope);
      && (forall a, b :: x == Val(VBool(a)) && y == Val(VBool(b)) ==> v == if a == b then TRUE else FALSE)
      && (forall a, b :: x == Val(VInt(a)) && y == Val(VInt(b)) ==> v == if a == b then TRUE else FALSE)
      && (forall a, b :: x == Val(VStr(a)) && y == Val(VStr(b)) ==> v == if a == b then TRUE else FALSE)
      && (x.Err? && !y.Diverge? ==> v == x) && (x.Val? && y.Err? ==> v == y)
  {
    DenoteEq(l, r, rho, q, scope);
    hide Denote;
  }

  lemma CondTable(c: Expr, t: Expr, f: Expr, rho: Values, q: Request, scope: Scope)
    requires Truth(Denote(c, rho, q, scope))
    ensures var x, v := Denote(c, rho, q, scope), Denote(Cond(c, t, f), rho, q, scope);
      && (x == TRUE ==> v == Denote(t, rho, q, scope))
      && (x == FALSE ==> v == Denote(f, rho, q, scope))
      && (x.Err? ==> v == x)
  {
    DenoteCond(c, t, f, rho, q, scope);
    hide Denote;
  }

  // ---- Responses -----------------------------------------------------------------------

  lemma StatusReads(resp: Expr, r: Resp, rho: Values, q: Request, scope: Scope)
    requires Denote(resp, rho, q, scope) == Val(VResp(r))
    ensures Denote(StatusOf(resp), rho, q, scope) == Val(VInt(r.status))
  {}

  // status sets the status, withBody the body, and nothing else.
  lemma StatusSets(resp: Expr, arg: Expr, r: Resp, n: int, rho: Values, q: Request, scope: Scope)
    requires Denote(resp, rho, q, scope) == Val(VResp(r)) && Denote(arg, rho, q, scope) == Val(VInt(n))
    ensures Denote(With(resp, StatusPart, arg), rho, q, scope) == Val(VResp(Resp(n, r.headers, r.body)))
  {}

  lemma BodySets(resp: Expr, arg: Expr, r: Resp, b: string, rho: Values, q: Request, scope: Scope)
    requires Denote(resp, rho, q, scope) == Val(VResp(r)) && Denote(arg, rho, q, scope) == Val(VStr(b))
    ensures Denote(With(resp, BodyPart, arg), rho, q, scope) == Val(VResp(Resp(r.status, r.headers, b)))
  {}

  ghost function ValuesOf(r: Resp, k: string): seq<string> {
    if r.headers.Some? && k in r.headers.value then r.headers.value[k] else []
  }

  // withHeader appends the value under the key; every other key, the status and the body stay.
  lemma HeaderAppends(
    resp: Expr, key: Expr, val: Expr, r: Resp, k: string, v: string, rho: Values, q: Request, scope: Scope)
    returns (r': Resp)
    requires Denote(resp, rho, q, scope) == Val(VResp(r))
    requires Denote(key, rho, q, scope) == Val(VStr(k)) && Denote(val, rho, q, scope) == Val(VStr(v))
    ensures Denote(WithHeader(resp, key, val), rho, q, scope) == Val(VResp(r'))
    ensures r'.status == r.status && r'.body == r.body && r'.headers.Some?
    ensures forall j :: j in r'.headers.value <==> j == k || (r.headers.Some? && j in r.headers.value)
    ensures ValuesOf(r', k) == ValuesOf(r, k) + [v]
    ensures forall j :: j != k ==> ValuesOf(r', j) == ValuesOf(r, j)
  {
    r' := Denote(WithHeader(resp, key, val), rho, q, scope).v.r;
  }

  lemma HeaderOnFresh(rho: Values, q: Request, scope: Scope)
    ensures Denote(WithHeader(NewResponse, StrLit("x-user"), StrLit("bob")), rho, q, scope) ==
      Val(VResp(Resp(0, Some(map["x-user" := ["bob"]]), "")))
  {
    var k, v := StrLit("x-user"), StrLit("bob");
    var r' := HeaderAppends(NewResponse, k, v, Resp(0, None, ""), "x-user", "bob", rho, q, scope);
    hide Denote;
    assert r'.headers.value.Keys == {"x-user"};
    assert ValuesOf(r', "x-user") == ["bob"];
    assert r'.headers.value == map["x-user" := ["bob"]];
  }

  // A builder's first failing operand decides, and null has no builders.
  lemma BuilderErrors(resp: Expr, part: Part, arg: Expr, key: Expr, val: Expr, rho: Values, q: Request, scope: Scope)
    ensures var x, y := Denote(resp, rho, q, scope), Denote(arg, rho, q, scope);
      var v := Denote(With(resp, part, arg), rho, q, scope);
      && (x.Err? && !y.Diverge? ==> v == x) && (x.Val? && y.Err? ==> v == y)
      && (x == Val(VNull) && y.Val? ==> v == Err("no such overload"))
    ensures var x, y, z := Denote(resp, rho, q, scope), Denote(key, rho, q, scope), Denote(val, rho, q, scope);
      var v := Denote(WithHeader(resp, key, val), rho, q, scope);
      && (x.Err? ==> v == x) && (x.Val? && y.Err? ==> v == y) && (x.Val? && y.Val? && z.Err? ==> v == z)
      && (x == Val(VNull) && y.Val? && z.Val? ==> v == Err("no such overload"))
  {
    DenoteWith(resp, part, arg, rho, q, scope);
    DenoteWithHeader(resp, key, val, rho, q, scope);
    hide Denote;
  }

  // ---- In place ------------------------------------------------------------------------

  // Evaluation changes the response at the receiver's address, and no other, and yields that
  // address again.
  lemma ChangesInPlace(
    resp: Expr, key: Expr, val: Expr, a: Addr, k: string, v: string, vars: map<string, Expr>, q: Request, scope: Scope,
    st: State, fuel: nat)
    requires var o1 := Eval(resp, vars, q, scope, st, fuel);
      var o2 := Eval(key, vars, q, scope, o1.1, fuel);
      var o3 := Eval(val, vars, q, scope, o2.1, fuel);
      && o1.0 == Val(VResp(a)) && o2.0 == Val(VStr(k)) && o3.0 == Val(VStr(v)) && a < |o3.1.heap|
    ensures var o1 := Eval(resp, vars, q, scope, st, fuel);
      var st3 := Eval(val, vars, q, scope, Eval(key, vars, q, scope, o1.1, fuel).1, fuel).1;
      var o := Eval(WithHeader(resp, key, val), vars, q, scope, st, fuel);
      && o.0 == Val(VResp(a)) && |o.1.heap| == |st3.heap| && o.1.memo == st3.memo
      && ValuesOf(o.1.heap[a], k) == ValuesOf(st3.heap[a], k) + [v]
      && o.1.heap[a].status == st3.heap[a].status && o.1.heap[a].body == st3.heap[a].body
      && forall b :: 0 <= b < |st3.heap| && b != a ==> o.1.heap[b] == st3.heap[b]
  {
    HeaderEquation(resp, key, val, vars, q, scope, st, fuel);
    hide Eval;
  }
}
