/** Where the code departs from the reference: builders on a variable's response, and variable
    names that are not unique. */
module Departures {
  import opened Cel
  import opened Options
  import opened Policies
  import opened Compiler
  import opened Reference
  import opened Engine
  import opened Decisions

  // ---- Builders on a variable's response -----------------------------------------------

  // variables: a = http.response().status(200), b = variables.a.status(403)
  const SHARED_VARIABLES := [
    Named("a", With(NewResponse, StatusPart, IntLit(200))),
    Named("b", With(Variable("a"), StatusPart, IntLit(403)))]

  // A policy over these variables with one rule, no conditions.
  function SharedPolicy(rule: Expr): Policy {
    Policy("shared", MODE_HTTP, Some(FAIL), [], SHARED_VARIABLES, [Validation(rule, "", None, "")])
  }

  // variables.b.status == 403 ? variables.a : null
  const LOOKS_AT_B := Cond(Eq(StatusOf(Variable("b")), IntLit(403)), Variable("a"), NullLit)

  const SHARED_PROGRAMS := map["a" := SHARED_VARIABLES[0].expression, "b" := SHARED_VARIABLES[1].expression]
  const OK := FRESH_RESPONSE.(status := 200)
  const FORBIDDEN := FRESH_RESPONSE.(status := 403)

  lemma SharedDeclarations()
    ensures Programs(SHARED_VARIABLES, 2) == SHARED_PROGRAMS
    ensures EnvAfter(SHARED_VARIABLES, 2) == map["a" := TResponse, "b" := TResponse]
    ensures VariableOk(SHARED_VARIABLES, 0) && VariableOk(SHARED_VARIABLES, 1)
  {
    assert EnvAfter(SHARED_VARIABLES, 1) == map["a" := TResponse];
    assert Programs(SHARED_VARIABLES, 1) == map["a" := SHARED_VARIABLES[0].expression];
  }

  lemma ForceA(q: Request, fuel: nat)
    requires fuel > 0
    ensures Eval(Variable("a"), SHARED_PROGRAMS, q, RuleScope, START, fuel) ==
      (Val(VResp(0)), State([OK], map["a" := Val(VResp(0))], ["a"]))
  {
    hide Denote, ReferenceRules, Eager, EveryBuild, Check, Programs, EnvAfter;
    var made := State([FRESH_RESPONSE], map[], []);
    WithEquation(NewResponse, StatusPart, IntLit(200), SHARED_PROGRAMS, q, RuleScope, START, fuel - 1);
    assert START.heap + [FRESH_RESPONSE] == [FRESH_RESPONSE];
    assert Eval(NewResponse, SHARED_PROGRAMS, q, RuleScope, START, fuel - 1) == (Val(VResp(0)), made);
    assert Eval(IntLit(200), SHARED_PROGRAMS, q, RuleScope, made, fuel - 1) == (Val(VInt(200)), made);
    assert made.heap[0 := OK] == [OK];
    assert Build(VResp(0), PartEdit<Addr>(StatusPart, VInt(200)), made) == (Val(VResp(0)), State([OK], map[], []));
    assert Remember("a", Val(VResp(0)), State([OK], map[], [])) == State([OK], map["a" := Val(VResp(0))], ["a"]);
    assert SHARED_PROGRAMS["a"] == With(NewResponse, StatusPart, IntLit(200));
  }

  lemma ForceB(q: Request, fuel: nat)
    requires fuel > 1
    ensures Eval(Variable("b"), SHARED_PROGRAMS, q, RuleScope, START, fuel) ==
      (Val(VResp(0)), State([FORBIDDEN], map["a" := Val(VResp(0)), "b" := Val(VResp(0))], ["a", "b"]))
  {
    hide Denote, ReferenceRules, Eager, EveryBuild, Check, Programs, EnvAfter;
    var memo: map<string, Res<Addr>> := map["a" := Val(VResp(0))];
    var st, changed := State([OK], memo, ["a"]), State([FORBIDDEN], memo, ["a"]);
    WithEquation(Variable("a"), StatusPart, IntLit(403), SHARED_PROGRAMS, q, RuleScope, START, fuel - 1);
    ForceA(q, fuel - 1);
    assert Eval(IntLit(403), SHARED_PROGRAMS, q, RuleScope, st, fuel - 1) == (Val(VInt(403)), st);
    assert st.heap[0 := FORBIDDEN] == [FORBIDDEN];
    assert Build(VResp(0), PartEdit<Addr>(StatusPart, VInt(403)), st) == (Val(VResp(0)), changed);
    assert SHARED_PROGRAMS["b"] == With(Variable("a"), StatusPart, IntLit(403));
    assert Remember("b", Val(VResp(0)), changed) ==
      State([FORBIDDEN], map["a" := Val(VResp(0)), "b" := Val(VResp(0))], ["a", "b"]);
  }

  lemma ReadsA(q: Request)
    ensures RunRules([Variable("a")], SHARED_PROGRAMS, q, START, 2) == Answered(OK)
  {
    ForceA(q, 2);
  }

  lemma ReadsAAfterB(q: Request)
    ensures RunRules([LOOKS_AT_B], SHARED_PROGRAMS, q, START, 2) == Answered(FORBIDDEN)
  {
    hide Denote, ReferenceRules, Eager, EveryBuild, Check, Programs, EnvAfter;
    ForceB(q, 2);
    var st := State([FORBIDDEN], map["a" := Val(VResp(0)), "b" := Val(VResp(0))], ["a", "b"]);
    var test := Eq(StatusOf(Variable("b")), IntLit(403));
    EqEquation(StatusOf(Variable("b")), IntLit(403), SHARED_PROGRAMS, q, RuleScope, START, 2);
    assert Eval(StatusOf(Variable("b")), SHARED_PROGRAMS, q, RuleScope, START, 2) == (Val(VInt(403)), st);
    assert Eval(test, SHARED_PROGRAMS, q, RuleScope, START, 2) == (Val(VBool(true)), st);
    CondEquation(test, Variable("a"), NullLit, SHARED_PROGRAMS, q, RuleScope, START, 2);
    assert Eval(Variable("a"), SHARED_PROGRAMS, q, RuleScope, st, 2) == (Val(VResp(0)), st);
  }

  lemma ReferenceReadsA(q: Request)
    ensures ReferenceRules([LOOKS_AT_B], Eager(SHARED_VARIABLES, 2, q), q) == Answered(OK)
  {
    var vs := SHARED_VARIABLES;
    DenoteWith(NewResponse, StatusPart, IntLit(200), map[], q, RuleScope);
    assert BuildValue(VResp(FRESH_RESPONSE), PartEdit<Resp>(StatusPart, VInt(200))) == Val(VResp(OK));
    assert Eager(vs, 0, q) == map[];
    var rho := Eager(vs, 1, q);
    assert rho == map["a" := Val(VResp(OK))];
    DenoteWith(Variable("a"), StatusPart, IntLit(403), rho, q, RuleScope);
    assert BuildValue(VResp(OK), PartEdit<Resp>(StatusPart, VInt(403))) == Val(VResp(FORBIDDEN));
    var rho2 := Eager(vs, 2, q);
    assert rho2 == map["a" := Val(VResp(OK)), "b" := Val(VResp(FORBIDDEN))];
    ReferenceRuleReadsA(rho2, q);
  }

  lemma ReferenceRuleReadsA(rho: Values, q: Request)
    requires rho == map["a" := Val(VResp(OK)), "b" := Val(VResp(FORBIDDEN))]
    ensures ReferenceRules([LOOKS_AT_B], rho, q) == Answered(OK)
  {
    DenoteCond(Eq(StatusOf(Variable("b")), IntLit(403)), Variable("a"), NullLit, rho, q, RuleScope);
    DenoteEq(StatusOf(Variable("b")), IntLit(403), rho, q, RuleScope);
  }

  // The answer of variables.a depends on whether b has been forced: b's builder changes a's
  // response. In the reference a stays 200.
  lemma SharedBuildersLeak(q: Request)
    ensures Accepted(SharedPolicy(Variable("a"))) && Accepted(SharedPolicy(LOOKS_AT_B))
    ensures OutcomeOf(Program(SharedPolicy(Variable("a"))), q) == Respond(OK)
    ensures OutcomeOf(Program(SharedPolicy(LOOKS_AT_B)), q) == Respond(FORBIDDEN)
    ensures ReferenceOutcome(SharedPolicy(LOOKS_AT_B), q) == Respond(OK)
  {
    SharedDeclarations();
    ReadsA(q);
    ReadsAAfterB(q);
    ReferenceReadsA(q);
    SharedOutcome(Variable("a"), q);
    SharedOutcome(LOOKS_AT_B, q);
  }

  lemma SharedRuleChecks(rule: Expr)
    requires rule == Variable("a") || rule == LOOKS_AT_B
    ensures ResponseLike(Check(rule, map["a" := TResponse, "b" := TResponse]))
  {
    assert Check(Eq(StatusOf(Variable("b")), IntLit(403)), map["a" := TResponse, "b" := TResponse]) == Some(TBool);
  }

  lemma SharedOutcome(rule: Expr, q: Request)
    requires rule == Variable("a") || rule == LOOKS_AT_B
    ensures Accepted(SharedPolicy(rule))
    ensures OutcomeOf(Program(SharedPolicy(rule)), q) == Settle(FAIL, RunRules([rule], SHARED_PROGRAMS, q, START, 2))
    ensures ReferenceOutcome(SharedPolicy(rule), q) ==
      Settle(FAIL, ReferenceRules([rule], Eager(SHARED_VARIABLES, 2, q), q))
  {
    SharedDeclarations();
    hide Eval, Denote, Programs, Eager, ReferenceRules, RunRules;
    var p := SharedPolicy(rule);
    SharedRuleChecks(rule);
    hide Check;
    assert RuleOk(p, p.validations[0]);
    assert Rules(p.validations) == [rule];
    assert |SHARED_PROGRAMS.Keys| == 2 by { assert SHARED_PROGRAMS.Keys == {"a", "b"}; }
  }

  // ---- Duplicate names -----------------------------------------------------------------

  // variables: x = true, x = variables.x
  const DUPLICATE_VARIABLES := [Named("x", BoolLit(true)), Named("x", Variable("x"))]

  // One rule: variables.x ? http.response() : null
  const DUPLICATE_POLICY := Policy("duplicate", MODE_HTTP, Some(FAIL), [], DUPLICATE_VARIABLES,
    [Validation(Cond(Variable("x"), NewResponse, NullLit), "", None, "")])

  lemma DuplicateDeclarations()
    ensures Programs(DUPLICATE_VARIABLES, 2) == map["x" := Variable("x")]
    ensures EnvAfter(DUPLICATE_VARIABLES, 2) == map["x" := TBool]
    ensures VariableOk(DUPLICATE_VARIABLES, 0) && VariableOk(DUPLICATE_VARIABLES, 1)
  {
    assert EnvAfter(DUPLICATE_VARIABLES, 1) == map["x" := TBool];
    assert Programs(DUPLICATE_VARIABLES, 1) == map["x" := BoolLit(true)];
  }

  lemma {:induction false} SelfReferenceDiverges(q: Request, fuel: nat)
    ensures Eval(Variable("x"), map["x" := Variable("x")], q, RuleScope, START, fuel).0 == Diverge
    decreases fuel
  {
    if fuel > 0 { SelfReferenceDiverges(q, fuel - 1); }
  }

  lemma ReadingItCrashes(q: Request)
    ensures RunRules([Cond(Variable("x"), NewResponse, NullLit)], map["x" := Variable("x")], q, START, 1) == Crashed
  {
    SelfReferenceDiverges(q, 1);
    CondEquation(Variable("x"), NewResponse, NullLit, map["x" := Variable("x")], q, RuleScope, START, 1);
    hide Eval;
  }

  // A duplicate name can slip past the order of declaration: the policy is accepted, the last
  // program wins, and forcing the variable never comes back however deep it may nest.
  lemma DuplicateNamesDiverge(q: Request, fuel: nat)
    ensures Accepted(DUPLICATE_POLICY)
    ensures Eval(Variable("x"), Program(DUPLICATE_POLICY).variables, q, RuleScope, START, fuel).0 == Diverge
    ensures OutcomeOf(Program(DUPLICATE_POLICY), q) == Crash
  {
    hide Denote, Eval, RunRules;
    DuplicateDeclarations();
    SelfReferenceDiverges(q, fuel);
    ReadingItCrashes(q);
    var p := DUPLICATE_POLICY;
    assert Check(p.validations[0].expression, map["x" := TBool]) == Some(TResponse);
    hide Programs, EnvAfter, Check;
    assert Rules(p.validations) == [Cond(Variable("x"), NewResponse, NullLit)];
    assert |map["x" := Variable("x")].Keys| == 1 by { assert map["x" := Variable("x")].Keys == {"x"}; }
  }
}
