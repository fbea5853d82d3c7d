/** The fragment of CEL in which policies are written: literals, boolean operators, the
    conditional, response builders, `object` attributes, library calls, and `variables.x`.
    Parser, checker and evaluator belong to cel-go; what is fixed here is the behaviour the
    authorizer relies on (pkg/engine/vpol/compiler, pkg/cel/libs/http/impl.go).

    A response is an object that the builder calls change in place and return again, so a
    value holds a response's address and the responses themselves live in a heap. */
module Cel {
  import opened Options

  datatype Ty = TBool | TInt | TString | TNull | TResponse {
    predicate Base() { TBool? || TInt? || TString? }
  }

  datatype Expr =
    | BoolLit(b: bool)
    | IntLit(i: int)
    | StrLit(s: string)
    | NullLit
    | Object(path: string, ty: Ty)   // an attribute of `object`, or a pure library call on it
    | Foreign(call: string, ty: Ty)  // a call on the `http` or `resource` context
    | Variable(name: string)         // variables.name
    | Not(e: Expr)
    | Logic(absorbing: bool, l: Expr, r: Expr)  // && absorbs false, || absorbs true
    | Eq(l: Expr, r: Expr)
    | Cond(c: Expr, t: Expr, f: Expr)
    | NewResponse                    // http.response()
    | StatusOf(resp: Expr)           // e.status
    | With(resp: Expr, part: Part, arg: Expr)   // e.status(n), e.withBody(s)
    | WithHeader(resp: Expr, key: Expr, val: Expr)

  datatype Part = StatusPart | BodyPart {
    function ArgType(): Ty { if StatusPart? then TInt else TString }
  }

  // ---- Type checking -------------------------------------------------------------------

  type TypeEnv = map<string, Ty>  // the fields registered for `variables`

  // The type of a conditional: null may stand where a response is expected.
  function Join(a: Ty, b: Ty): Option<Ty> {
    if a == b then Some(a)
    else if (a.TNull? && b.TResponse?) || (a.TResponse? && b.TNull?) then Some(TResponse)
    else None
  }

  predicate ResponseLike(t: Option<Ty>) { t == Some(TResponse) || t == Some(TNull) }

  function Check(e: Expr, env: TypeEnv): Option<Ty> {
    match e
    case BoolLit(_) => Some(TBool)
    case IntLit(_) => Some(TInt)
    case StrLit(_) => Some(TString)
    case NullLit => Some(TNull)
    case Object(_, ty) => if ty.Base() then Some(ty) else None
    case Foreign(_, ty) => if ty.Base() then Some(ty) else None
    case Variable(x) => if x in env then Some(env[x]) else None
    case Not(a) => if Check(a, env) == Some(TBool) then Some(TBool) else None
    case Logic(_, l, r) => if Check(l, env) == Some(TBool) && Check(r, env) == Some(TBool) then Some(TBool) else None
    case Eq(l, r) =>
      var a, b := Check(l, env), Check(r, env);
      if a.Some? && a == b && a.value.Base() then Some(TBool) else None
    case Cond(c, t, f) =>
      var a, b := Check(t, env), Check(f, env);
      if Check(c, env) == Some(TBool) && a.Some? && b.Some? then Join(a.value, b.value) else None
    case NewResponse => Some(TResponse)
    case StatusOf(r) => if Check(r, env) == Some(TResponse) then Some(TInt) else None
    case With(r, part, n) =>
      if ResponseLike(Check(r, env)) && Check(n, env) == Some(part.ArgType()) then Some(TResponse) else None
    case WithHeader(r, k, v) =>
      if ResponseLike(Check(r, env)) && Check(k, env) == Some(TString) && Check(v, env) == Some(TString)
      then Some(TResponse) else None
  }

  // ---- Responses and their builders ----------------------------------------------------

  datatype Resp = Resp(status: int, headers: Option<map<string, seq<string>>>, body: string)

  const FRESH_RESPONSE := Resp(0, None, "")

  // What one builder call does to a response; withHeader appends to the key's values.
  datatype Edit = PutStatus(n: int) | PutBody(b: string) | PutHeader(k: string, v: string) {
    function On(r: Resp): Resp {
      match this
      case PutStatus(n) => r.(status := n)
      case PutBody(b) => r.(body := b)
      case PutHeader(k, v) =>
        var inner := if r.headers.Some? then r.headers.value else map[];
        var before := if k in inner then inner[k] else [];
        r.(headers := Some(inner[k := before + [v]]))
    }
  }

  // ---- Evaluation ----------------------------------------------------------------------

  // R says how a response is held: by its address here, as itself in the reference semantics.
  datatype Value<R> = VBool(b: bool) | VInt(i: int) | VStr(s: string) | VNull | VResp(r: R)

  // Diverge: the evaluation does not come back (Go's stack overflows).
  datatype Res<R> = Val(v: Value<R>) | Err(msg: string) | Diverge

  type Addr = nat

  // What a request makes of an attribute or call is fixed for that request.
  datatype Input = KnownBool(b: bool) | KnownInt(i: int) | KnownStr(s: string) | Failing(msg: string)
  datatype Request = Request(attrs: map<string, Input>, calls: map<string, Input>)

  // Match conditions are evaluated with `object` bound and nothing else.
  datatype Scope = MatchScope | RuleScope

  // heap: responses made so far; memo: variables already forced; runs: their order.
  datatype State = State(heap: seq<Resp>, memo: map<string, Res<Addr>>, runs: seq<string>)

  const START := State([], map[], [])

  const NO_ATTRIBUTE := "no such attribute"
  const NO_KEY := "no such key"
  const NO_OVERLOAD := "no such overload"

  function Read<R>(inputs: map<string, Input>, path: string, ty: Ty): Res<R> {
    if path !in inputs then Err(NO_KEY)
    else match (inputs[path], ty)
      case (Failing(msg), _) => Err(msg)
      case (KnownBool(b), TBool) => Val(VBool(b))
      case (KnownInt(i), TInt) => Val(VInt(i))
      case (KnownStr(s), TString) => Val(VStr(s))
      case _ => Err(NO_OVERLOAD)
  }

  // A strict operator's first failing operand decides.
  function Strict2<R>(a: Res<R>, b: Res<R>): (bad: Option<Res<R>>)
    ensures bad.None? <==> a.Val? && b.Val?
  {
    if a.Diverge? || b.Diverge? then Some(Diverge)
    else if a.Err? then Some(a) else if b.Err? then Some(b) else None
  }

  // CEL's && and ||: the absorbing value wins over an error on either side.
  function Absorb<R(==)>(a: Res<R>, b: Res<R>, absorbing: bool): Res<R> {
    if a.Diverge? || b.Diverge? then Diverge
    else if b == Val(VBool(absorbing)) then b
    else if a.Err? then a
    else if b.Err? then b
    else if a.v.VBool? && b.v.VBool? then Val(VBool(!absorbing))
    else Err(NO_OVERLOAD)
  }

  function Negate<R>(a: Res<R>): Res<R> {
    if !a.Val? then a else if a.v.VBool? then Val(VBool(!a.v.b)) else Err(NO_OVERLOAD)
  }

  // Comparison of booleans, integers and strings; the checker lets nothing else be compared.
  function Equal<R(==)>(a: Res<R>, b: Res<R>): Res<R> {
    var bad := Strict2(a, b);
    if bad.Some? then bad.value
    else if a.v.VNull? || a.v.VResp? then Err(NO_OVERLOAD)
    else Val(VBool(a.v == b.v))
  }

  function StatusField(a: Res<Addr>, heap: seq<Resp>): Res<Addr> {
    if !a.Val? then a
    else if !a.v.VResp? || a.v.r >= |heap| then Err(NO_OVERLOAD)
    else Val(VInt(heap[a.v.r].status))
  }

  function PartEdit<R>(part: Part, arg: Value<R>): Option<Edit> {
    if part.StatusPart? && arg.VInt? then Some(PutStatus(arg.i))
    else if part.BodyPart? && arg.VStr? then Some(PutBody(arg.s))
    else None
  }

  function HeaderEdit<R>(k: Value<R>, v: Value<R>): Option<Edit> {
    if k.VStr? && v.VStr? then Some(PutHeader(k.s, v.s)) else None
  }

  // A builder changes the response at its receiver's address and returns that address.
  function Build(a: Value<Addr>, edit: Option<Edit>, st: State): (Res<Addr>, State) {
    if !a.VResp? || a.r >= |st.heap| || edit.None? then (Err(NO_OVERLOAD), st)
    else (Val(a), st.(heap := st.heap[a.r := edit.value.On(st.heap[a.r])]))
  }

  // The lazy map remembers what a variable evaluated to, errors included.
  function Remember(x: string, r: Res<Addr>, st: State): State {
    if r.Diverge? then st else st.(memo := st.memo[x := r], runs := st.runs + [x])
  }

  /** Evaluation over the lazy variable map: `vars` holds the program of every variable, a
      variable is evaluated on first access and its result, error included, is remembered.
      `fuel` bounds the nesting of variable evaluations; running out is Diverge. */
  function Eval(e: Expr, vars: map<string, Expr>, q: Request, scope: Scope, st: State, fuel: nat): (Res<Addr>, State)
    decreases fuel, e
  {
    match e
    case BoolLit(b) => (Val(VBool(b)), st)
    case IntLit(i) => (Val(VInt(i)), st)
    case StrLit(s) => (Val(VStr(s)), st)
    case NullLit => (Val(VNull), st)
    case Object(path, ty) => (Read(q.attrs, path, ty), st)
    case Foreign(call, ty) =>
      (if scope.MatchScope? then Err(NO_ATTRIBUTE) else Read(q.calls, call, ty), st)
    case Variable(x) =>
      if scope.MatchScope? then (Err(NO_ATTRIBUTE), st)
      else if x in st.memo then (st.memo[x], st)
      else if x !in vars then (Err(NO_KEY), st)
      else if fuel == 0 then (Diverge, st)
      else var (r, st1) := Eval(vars[x], vars, q, scope, st, fuel - 1); (r, Remember(x, r, st1))
    case Not(a) =>
      var (r, st1) := Eval(a, vars, q, scope, st, fuel);
      (Negate(r), st1)
    case Logic(absorbing, l, r) =>
      var (a, st1) := Eval(l, vars, q, scope, st, fuel);
      if a == Val(VBool(absorbing)) || a.Diverge? then (a, st1)
      else var (b, st2) := Eval(r, vars, q, scope, st1, fuel); (Absorb(a, b, absorbing), st2)
    case Eq(l, r) =>
      var (a, st1) := Eval(l, vars, q, scope, st, fuel);
      var (b, st2) := Eval(r, vars, q, scope, st1, fuel);
      (Equal(a, b), st2)
    case Cond(c, t, f) =>
      var (a, st1) := Eval(c, vars, q, scope, st, fuel);
      if !a.Val? then (a, st1)
      else if !a.v.VBool? then (Err(NO_OVERLOAD), st1)
      else if a.v.b then Eval(t, vars, q, scope, st1, fuel)
      else Eval(f, vars, q, scope, st1, fuel)
    case NewResponse => (Val(VResp(|st.heap|)), st.(heap := st.heap + [FRESH_RESPONSE]))
    case StatusOf(resp) =>
      var (a, st1) := Eval(resp, vars, q, scope, st, fuel);
      (StatusField(a, st1.heap), st1)
    case With(resp, part, arg) =>
      var (a, st1) := Eval(resp, vars, q, scope, st, fuel);
      var (n, st2) := Eval(arg, vars, q, scope, st1, fuel);
      var bad := Strict2(a, n);
      if bad.Some? then (bad.value, st2) else Build(a.v, PartEdit(part, n.v), st2)
    case WithHeader(resp, key, val) =>
      var (a, st1) := Eval(resp, vars, q, scope, st, fuel);
      if !a.Val? then (a, st1)
      else
        var (k, st2) := Eval(key, vars, q, scope, st1, fuel);
        if !k.Val? then (k, st2)
        else
          var (v, st3) := Eval(val, vars, q, scope, st2, fuel);
          if !v.Val? then (v, st3) else Build(a.v, HeaderEdit(k.v, v.v), st3)
  }

  // ---- One step of evaluation, for proofs that hide the rest ---------------------------

  lemma LogicEquation(
    absorbing: bool, l: Expr, r: Expr, vars: map<string, Expr>, q: Request, scope: Scope, st: State, fuel: nat)
    ensures Eval(Logic(absorbing, l, r), vars, q, scope, st, fuel) ==
      var (a, st1) := Eval(l, vars, q, scope, st, fuel);
      if a == Val(VBool(absorbing)) || a.Diverge? then (a, st1)
      else var (b, st2) := Eval(r, vars, q, scope, st1, fuel); (Absorb(a, b, absorbing), st2)
  {}

  lemma EqEquation(l: Expr, r: Expr, vars: map<string, Expr>, q: Request, scope: Scope, st: State, fuel: nat)
    ensures Eval(Eq(l, r), vars, q, scope, st, fuel) ==
      var (a, st1) := Eval(l, vars, q, scope, st, fuel);
      var (b, st2) := Eval(r, vars, q, scope, st1, fuel);
      (Equal(a, b), st2)
  {}

  lemma WithEquation(
    resp: Expr, part: Part, arg: Expr, vars: map<string, Expr>, q: Request, scope: Scope, st: State, fuel: nat)
    ensures Eval(With(resp, part, arg), vars, q, scope, st, fuel) ==
      var (a, st1) := Eval(resp, vars, q, scope, st, fuel);
      var (n, st2) := Eval(arg, vars, q, scope, st1, fuel);
      var bad := Strict2(a, n);
      if bad.Some? then (bad.value, st2) else Build(a.v, PartEdit(part, n.v), st2)
  {}

  lemma CondEquation(b: Expr, t: Expr, f: Expr, vars: map<string, Expr>, q: Request, scope: Scope, st: State, fuel: nat)
    ensures Eval(Cond(b, t, f), vars, q, scope, st, fuel) ==
      var (a, st1) := Eval(b, vars, q, scope, st, fuel);
      if !a.Val? then (a, st1)
      else if !a.v.VBool? then (Err(NO_OVERLOAD), st1)
      else if a.v.b then Eval(t, vars, q, scope, st1, fuel)
      else Eval(f, vars, q, scope, st1, fuel)
  {}

  lemma HeaderEquation(
    resp: Expr, key: Expr, val: Expr, vars: map<string, Expr>, q: Request, scope: Scope, st: State, fuel: nat)
    ensures Eval(WithHeader(resp, key, val), vars, q, scope, st, fuel) ==
      var (a, st1) := Eval(resp, vars, q, scope, st, fuel);
      if !a.Val? then (a, st1)
      else
        var (k, st2) := Eval(key, vars, q, scope, st1, fuel);
        if !k.Val? then (k, st2)
        else
          var (v, st3) := Eval(val, vars, q, scope, st2, fuel);
          if !v.Val? then (v, st3) else Build(a.v, HeaderEdit(k.v, v.v), st3)
  {}
}
