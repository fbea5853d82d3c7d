/** How exact the condition of the refinement is: the builder calls of a run, but for the answer's
    own, change no response that a variable remembers if and only if the memo shows the reference
    values after every one of them. */
module Exactness {
  import opened Cel
  import opened Options
  import opened Policies
  import opened Compiler
  import opened Soundness
  import opened Reference
  import opened LastCalls
  import opened Engine
  import opened Decisions

  // After the call every remembered variable shows its reference value.
  ghost function StillShows(rho: Values): BuildTest { (a, edit, st) => Shadows(rho, Build(a, edit, st).1) }

  // One builder call: from a memo that shows the reference values.
  lemma SharedBuildIsSeen(rho: Values, st: State, a: Value<Addr>, edit: Option<Edit>)
    requires Shadows(rho, st)
    ensures Untouched(a, edit, st) <==> StillShows(rho)(a, edit, st)
  {
    var st' := Build(a, edit, st).1;
    if a.VResp? && a.r < |st.heap| && edit.Some? {
      if x :| Holds(st, x, a.r) {
        assert Shows(rho, st, x) && rho[x] == Val(VResp(st.heap[a.r]));
        assert Holds(st', x, a.r);
        if edit.value.On(st.heap[a.r]) == st.heap[a.r] {
          assert st'.heap == st.heap;
          forall y ensures Shows(rho, st', y) { assert Shows(rho, st, y); }
        } else {
          assert !Shows(rho, st', x);
        }
      } else {
        forall y ensures Shows(rho, st', y) {
          assert Shows(rho, st, y);
          assert !Holds(st, y, a.r);
        }
      }
    }
  }

  // A quiet evaluation comes back and leaves a memo that shows the reference values.
  lemma QuietGoesOn(e: Expr, k: nat, c: Decls, rho: Values, q: Request, scope: Scope, st: State, fuel: nat)
    requires Ready(false, e, k, c, rho, q, scope, st, fuel)
    ensures Shadows(rho, Eval(e, c.exprs, q, scope, st, fuel).1) && !Eval(e, c.exprs, q, scope, st, fuel).0.Diverge?
  {
    hide Eval, Denote, EveryBuild, Check;
    EvalRefines(false, e, k, c, rho, q, scope, st, fuel);
    RefinesFacts(c.envs[k], rho, false, st, Eval(e, c.exprs, q, scope, st, fuel), Denote(e, rho, q, scope));
  }

  // What is known where an evaluation starts.
  ghost predicate At(e: Expr, k: nat, c: Decls, rho: Values, q: Request, st: State, fuel: nat) {
    Solves(c, rho, q) && k < |c.envs| && k <= fuel && Check(e, c.envs[k]).Some? && Shadows(rho, st)
  }

  ghost predicate Exact(e: Expr, c: Decls, rho: Values, q: Request, scope: Scope, st: State, fuel: nat) {
    Quiet(e, c.exprs, q, scope, st, fuel) <==> EveryBuild(StillShows(rho), e, c.exprs, q, scope, st, fuel)
  }

  // Two operands, the second evaluated if the first has been quiet.
  lemma {:induction false} PairExactly(
    e: Expr, l: Expr, r: Expr, k: nat, c: Decls, rho: Values, q: Request, scope: Scope, st: State, fuel: nat)
    requires At(l, k, c, rho, q, st, fuel) && k < |c.envs| && Check(r, c.envs[k]).Some? && l < e && r < e
    ensures Exact(l, c, rho, q, scope, st, fuel)
    ensures Quiet(l, c.exprs, q, scope, st, fuel) ==>
      var st1 := Eval(l, c.exprs, q, scope, st, fuel).1;
      At(r, k, c, rho, q, st1, fuel) && Exact(r, c, rho, q, scope, st1, fuel)
    decreases k, e, 0
  {
    hide Eval, EveryBuild, Check, Exact, Shadows, Solves;
    BuildsExactly(l, k, c, rho, q, scope, st, fuel);
    if Quiet(l, c.exprs, q, scope, st, fuel) {
      QuietGoesOn(l, k, c, rho, q, scope, st, fuel);
      BuildsExactly(r, k, c, rho, q, scope, Eval(l, c.exprs, q, scope, st, fuel).1, fuel);
    }
  }

  lemma {:induction false} BuildsExactly(
    e: Expr, k: nat, c: Decls, rho: Values, q: Request, scope: Scope, st: State, fuel: nat)
    requires At(e, k, c, rho, q, st, fuel)
    ensures Exact(e, c, rho, q, scope, st, fuel)
    decreases k, e, 2
  {
    hide Eval, Shadows, Untouched, StillShows;
    match e
    case Variable(x) =>
      var j := Declared(c, k, x);
      assert SolvedAt(c, rho, q, x);
      if scope.RuleScope? && x !in st.memo { BuildsExactly(c.exprs[x], j, c, rho, q, scope, st, fuel - 1); }
    case Not(a) => BuildsExactly(a, k, c, rho, q, scope, st, fuel);
    case StatusOf(resp) => BuildsExactly(resp, k, c, rho, q, scope, st, fuel);
    case Logic(_, l, r) => PairExactly(e, l, r, k, c, rho, q, scope, st, fuel);
    case Eq(l, r) => PairExactly(e, l, r, k, c, rho, q, scope, st, fuel);
    case Cond(b, t, f) =>
      PairExactly(e, b, t, k, c, rho, q, scope, st, fuel);
      PairExactly(e, b, f, k, c, rho, q, scope, st, fuel);
    case With(resp, part, arg) => WithExactly(resp, part, arg, k, c, rho, q, scope, st, fuel);
    case WithHeader(resp, key, val) => HeaderExactly(resp, key, val, k, c, rho, q, scope, st, fuel);
    case _ =>
  }

  lemma {:induction false} WithExactly(
    resp: Expr, part: Part, arg: Expr, k: nat, c: Decls, rho: Values, q: Request, scope: Scope, st: State, fuel: nat)
    requires At(With(resp, part, arg), k, c, rho, q, st, fuel)
    ensures Exact(With(resp, part, arg), c, rho, q, scope, st, fuel)
    decreases k, With(resp, part, arg), 1
  {
    hide Eval, Shadows, Untouched, StillShows;
    PairExactly(With(resp, part, arg), resp, arg, k, c, rho, q, scope, st, fuel);
    var o1 := Eval(resp, c.exprs, q, scope, st, fuel);
    var o2 := Eval(arg, c.exprs, q, scope, o1.1, fuel);
    if Quiet(resp, c.exprs, q, scope, st, fuel) && Quiet(arg, c.exprs, q, scope, o1.1, fuel) {
      QuietGoesOn(arg, k, c, rho, q, scope, o1.1, fuel);
      if o1.0.Val? && o2.0.Val? { SharedBuildIsSeen(rho, o2.1, o1.0.v, PartEdit(part, o2.0.v)); }
    }
  }

  lemma {:induction false} HeaderExactly(
    resp: Expr, key: Expr, val: Expr, k: nat, c: Decls, rho: Values, q: Request, scope: Scope, st: State, fuel: nat)
    requires At(WithHeader(resp, key, val), k, c, rho, q, st, fuel)
    ensures Exact(WithHeader(resp, key, val), c, rho, q, scope, st, fuel)
    decreases k, WithHeader(resp, key, val), 1
  {
    hide Eval, Shadows, Untouched, StillShows;
    var e := WithHeader(resp, key, val);
    PairExactly(e, resp, key, k, c, rho, q, scope, st, fuel);
    var o1 := Eval(resp, c.exprs, q, scope, st, fuel);
    var o2 := Eval(key, c.exprs, q, scope, o1.1, fuel);
    if Quiet(resp, c.exprs, q, scope, st, fuel) {
      PairExactly(e, key, val, k, c, rho, q, scope, o1.1, fuel);
      if Quiet(key, c.exprs, q, scope, o1.1, fuel) && Quiet(val, c.exprs, q, scope, o2.1, fuel) {
        QuietGoesOn(val, k, c, rho, q, scope, o2.1, fuel);
        var o3 := Eval(val, c.exprs, q, scope, o2.1, fuel);
        if o1.0.Val? && o2.0.Val? && o3.0.Val? { SharedBuildIsSeen(rho, o3.1, o1.0.v, HeaderEdit(o2.0.v, o3.0.v)); }
      }
    }
  }

  lemma {:induction false} TailExactly(
    e: Expr, k: nat, c: Decls, rho: Values, q: Request, scope: Scope, st: State, fuel: nat)
    requires At(e, k, c, rho, q, st, fuel)
    ensures EveryBuildButTail(Untouched, e, c.exprs, q, scope, st, fuel) <==>
      EveryBuildButTail(StillShows(rho), e, c.exprs, q, scope, st, fuel)
    decreases e
  {
    hide Eval, EveryBuild, Shadows, StillShows, Check, Leaf, Solves, Untouched;
    OperandsCheck(e, c.envs[k]);
    match e
    case Cond(b, t, f) =>
      BuildsExactly(b, k, c, rho, q, scope, st, fuel);
      if Quiet(b, c.exprs, q, scope, st, fuel) {
        QuietGoesOn(b, k, c, rho, q, scope, st, fuel);
        var o1 := Eval(b, c.exprs, q, scope, st, fuel);
        if o1.0.Val? && o1.0.v.VBool? {
          TailExactly(if o1.0.v.b then t else f, k, c, rho, q, scope, o1.1, fuel);
        }
      }
    case With(resp, _, arg) =>
      if Leaf(arg) {
        TailExactly(resp, k, c, rho, q, scope, st, fuel);
      } else {
        PairExactly(e, resp, arg, k, c, rho, q, scope, st, fuel);
      }
    case WithHeader(resp, key, val) =>
      if Leaf(key) && Leaf(val) {
        TailExactly(resp, k, c, rho, q, scope, st, fuel);
      } else {
        PairExactly(e, resp, key, k, c, rho, q, scope, st, fuel);
        if Quiet(resp, c.exprs, q, scope, st, fuel) {
          PairExactly(e, key, val, k, c, rho, q, scope, Eval(resp, c.exprs, q, scope, st, fuel).1, fuel);
        }
      }
    case _ => BuildsExactly(e, k, c, rho, q, scope, st, fuel);
  }

  lemma {:induction false} RulesExactly(rules: seq<Expr>, c: Decls, rho: Values, q: Request, st: State, fuel: nat)
    requires Solves(c, rho, q) && |c.names| <= fuel && Shadows(rho, st)
    requires forall i :: 0 <= i < |rules| ==> Check(rules[i], Known(c)).Some?
    ensures EveryRuleBuild(Untouched, rules, c.exprs, q, st, fuel) <==>
      EveryRuleBuild(StillShows(rho), rules, c.exprs, q, st, fuel)
    decreases |rules|
  {
    if rules != [] {
      hide Eval, Denote, Check, EveryBuildButTail, Shadows, StillShows, Solves;
      var k, o1 := |c.names|, Eval(rules[0], c.exprs, q, RuleScope, st, fuel);
      TailExactly(rules[0], k, c, rho, q, RuleScope, st, fuel);
      if EveryBuildButTail(Untouched, rules[0], c.exprs, q, RuleScope, st, fuel) {
        TailRefines(rules[0], k, c, rho, q, RuleScope, st, fuel);
        if RuleResult(o1.0, o1.1.heap).Nothing? { RulesExactly(rules[1..], c, rho, q, o1.1, fuel); }
      }
    }
  }

  // For every accepted policy and request: no builder call but the answer's own changes a
  // remembered response if and only if after every such call the memo shows the eagerly evaluated
  // values.
  lemma QuietExactly(p: Policy, q: Request)
    requires Readable(p)
    ensures QuietRun(Program(p), q) <==>
      EveryPolicyBuild(StillShows(Eager(p.variables, |p.variables|, q)), Program(p), q)
  {
    hide Eval, Check, EveryRuleBuild, VerdictOf, Denote, StillShows, Readable, Eager, Programs, Solves, Shadows, Known;
    var c, rho := PolicyReady(p, q);
    RulesExactly(Program(p).rules, c, rho, q, START, |p.variables|);
  }

  // ---- What the next rule sees ---------------------------------------------------------

  // The state the rules leave when none of them decides.
  ghost function MemoAfter(rules: seq<Expr>, vars: map<string, Expr>, q: Request, st: State, fuel: nat): State
    decreases |rules|
  {
    if rules == [] then st else MemoAfter(rules[1..], vars, q, Eval(rules[0], vars, q, RuleScope, st, fuel).1, fuel)
  }

  lemma {:induction false} RunsOn(
    rules: seq<Expr>, last: Expr, vars: map<string, Expr>, q: Request, st: State, fuel: nat)
    requires RunRules(rules, vars, q, st, fuel) == Nothing
    ensures RunRules(rules + [last], vars, q, st, fuel) ==
      RunRules([last], vars, q, MemoAfter(rules, vars, q, st, fuel), fuel)
    decreases |rules|
  {
    hide Eval;
    if rules == [] {
      assert rules + [last] == [last];
    } else {
      assert (rules + [last])[1..] == rules[1..] + [last];
      RunsOn(rules[1..], last, vars, q, Eval(rules[0], vars, q, RuleScope, st, fuel).1, fuel);
    }
  }

  lemma {:induction false} ReadsOn(rules: seq<Expr>, last: Expr, rho: Values, q: Request)
    requires ReferenceRules(rules, rho, q) == Nothing
    ensures ReferenceRules(rules + [last], rho, q) == RawOf(Denote(last, rho, q, RuleScope))
    decreases |rules|
  {
    hide Denote;
    if rules == [] {
      assert rules + [last] == [last] && [last][1..] == [];
    } else {
      assert (rules + [last])[1..] == rules[1..] + [last];
      ReadsOn(rules[1..], last, rho, q);
    }
  }

  lemma {:induction false} MemoStaysTyped(rules: seq<Expr>, c: Decls, q: Request, st: State, fuel: nat)
    requires WellDeclared(c) && |c.names| <= fuel && Consistent(Known(c), st)
    requires forall i :: 0 <= i < |rules| ==> Check(rules[i], Known(c)).Some?
    ensures Consistent(Known(c), MemoAfter(rules, c.exprs, q, st, fuel))
    decreases |rules|
  {
    if rules != [] {
      hide Eval, Check, Consistent;
      EvalSound(rules[0], Check(rules[0], Known(c)).value, |c.names|, c, q, RuleScope, st, fuel);
      MemoStaysTyped(rules[1..], c, q, Eval(rules[0], c.exprs, q, RuleScope, st, fuel).1, fuel);
    }
  }

  // Reading a remembered response gives the reference answer exactly when the memo shows its
  // reference value.
  lemma ReadTells(known: TypeEnv, st: State, rho: Values, y: string, vars: map<string, Expr>, q: Request, fuel: nat)
    requires Consistent(known, st) && y in st.memo && y in rho && y in known && ResponseLike(Some(known[y]))
    ensures RunRules([Variable(y)], vars, q, st, fuel) == RawOf(rho[y]) <==> Deref(st.memo[y], st.heap) == rho[y]
  {
    assert EntryOk(known, st, y);
    assert Eval(Variable(y), vars, q, RuleScope, st, fuel) == (st.memo[y], st);
    hide Eval;
    assert [Variable(y)][1..] == [];
  }

  // A policy whose rules abstain, with one rule more that answers with a variable's response: the
  // code's answer is the reference's exactly when the rules have left the variable's reference
  // value in the memo.
  lemma NextRuleTells(p: Policy, q: Request, y: string)
    requires Readable(p) && y in EnvAfter(p.variables, |p.variables|)
    requires ResponseLike(Some(EnvAfter(p.variables, |p.variables|)[y]))
    requires RunRules(Program(p).rules, Program(p).variables, q, START, |Program(p).variables|) == Nothing
    requires ReferenceRules(Program(p).rules, Eager(p.variables, |p.variables|, q), q) == Nothing
    requires y in MemoAfter(Program(p).rules, Program(p).variables, q, START, |Program(p).variables|).memo
    ensures var p' := p.(validations := p.validations + [Validation(Variable(y), "", None, "")]);
      var st := MemoAfter(Program(p).rules, Program(p).variables, q, START, |Program(p).variables|);
      var rho := Eager(p.variables, |p.variables|, q);
      && Accepted(p') && y in rho
      && (RunRules(Program(p').rules, Program(p).variables, q, START, |Program(p).variables|) ==
            ReferenceRules(Program(p').rules, rho, q) <==>
          Deref(st.memo[y], st.heap) == rho[y])
  {
    var v := Validation(Variable(y), "", None, "");
    var p' := p.(validations := p.validations + [v]);
    AppendedRule(p, v);
    hide Eval, Denote, Eager, EnvAfter, Programs, Accepted, RunRules, ReferenceRules, MemoAfter, Check, Consistent;
    var c, rho := PolicyReady(p, q);
    DeclsOk(p.variables);
    assert SolvedAt(c, rho, q, y);
    RunsOn(Program(p).rules, Variable(y), c.exprs, q, START, |p.variables|);
    ReadsOn(Program(p).rules, Variable(y), rho, q);
    StartIsTyped(Known(c));
    MemoStaysTyped(Program(p).rules, c, q, START, |p.variables|);
    var st := MemoAfter(Program(p).rules, Program(p).variables, q, START, |p.variables|);
    ReadTells(Known(c), st, rho, y, c.exprs, q, |p.variables|);
    assert Denote(Variable(y), rho, q, RuleScope) == rho[y] by { DenoteVariable(y, rho, q); }
  }

  lemma DenoteVariable(y: string, rho: Values, q: Request)
    requires y in rho
    ensures Denote(Variable(y), rho, q, RuleScope) == rho[y]
  {}

  lemma StartIsTyped(known: TypeEnv)
    ensures Consistent(known, START)
  {}

  lemma AppendedRule(p: Policy, v: Validation)
    requires Accepted(p) && RuleOk(p, v)
    ensures var p' := p.(validations := p.validations + [v]);
      Accepted(p') && Program(p').rules == Program(p).rules + [v.expression]
  {
    hide Check, EnvAfter, Programs;
    var p' := p.(validations := p.validations + [v]);
    forall i | 0 <= i < |p'.validations| ensures RuleOk(p', p'.validations[i]) {
      if i < |p.validations| { assert RuleOk(p, p.validations[i]); } else { assert RuleOk(p, v); }
    }
    forall i | 0 <= i < |p.variables| ensures VariableOk(p'.variables, i) { assert VariableOk(p.variables, i); }
  }
}
