/** Compilation of a policy (pkg/engine/vpol/compiler/compiler.go) against the growing set of
    known variables (pkg/cel/variables.go). */
module Compiler {
  import opened Cel
  import opened Options
  import opened Policies
  import opened Typing

  // The custom type provider: a variable's field exists once it has been registered.
  class VariablesProvider {
    var fields: map<string, Ty>
    var names: seq<string>

    ghost predicate Valid()
      reads this
    {
      forall x :: x in fields <==> x in names
    }

    constructor ()
      ensures Valid() && fields == map[] && names == []
    {
      fields, names := map[], [];
    }

    method RegisterField(name: string, t: Ty)
      requires Valid()
      modifies this
      ensures Valid() && fields == old(fields)[name := t] && names == old(names) + [name]
    {
      fields := fields[name := t];
      names := names + [name];
    }
  }

  datatype CompiledPolicy = CompiledPolicy(
    failurePolicy: string,
    matchConditions: seq<Expr>,
    variables: map<string, Expr>,
    rules: seq<Expr>)

  type PolicyMap = map<string, CompiledPolicy>

  datatype Section = MatchConditions | Variables | Validations
  datatype Reason = DoesNotCheck | WrongOutputType
  datatype CompileError = CompileError(section: Section, index: nat, reason: Reason)
  datatype CompileResult = Compiled(policy: CompiledPolicy) | Rejected(error: CompileError)

  // The fields registered once the first n variables have been compiled.
  ghost function EnvAfter(vars: seq<Named>, n: nat): TypeEnv
    requires n <= |vars|
  {
    if n == 0 then map[]
    else
      var env := EnvAfter(vars, n - 1);
      var t := Check(vars[n - 1].expression, env);
      if t.Some? then env[vars[n - 1].name := t.value] else env
  }

  ghost function Programs(vars: seq<Named>, n: nat): map<string, Expr>
    requires n <= |vars|
  {
    if n == 0 then map[] else Programs(vars, n - 1)[vars[n - 1].name := vars[n - 1].expression]
  }

  ghost predicate MatchOk(c: Named) { Check(c.expression, map[]) == Some(TBool) }

  ghost predicate VariableOk(vars: seq<Named>, i: nat)
    requires i < |vars|
  {
    Check(vars[i].expression, EnvAfter(vars, i)).Some?
  }

  ghost predicate RuleOk(p: Policy, v: Validation) {
    ResponseLike(Check(v.expression, EnvAfter(p.variables, |p.variables|)))
  }

  // What compilation accepts, said of the policy alone.
  ghost predicate Accepted(p: Policy) {
    && (forall i :: 0 <= i < |p.matchConditions| ==> MatchOk(p.matchConditions[i]))
    && (forall i :: 0 <= i < |p.variables| ==> VariableOk(p.variables, i))
    && (forall i :: 0 <= i < |p.validations| ==> RuleOk(p, p.validations[i]))
  }

  ghost function Conditions(cs: seq<Named>): seq<Expr> {
    seq(|cs|, i requires 0 <= i < |cs| => cs[i].expression)
  }

  ghost function Rules(vs: seq<Validation>): seq<Expr> {
    seq(|vs|, i requires 0 <= i < |vs| => vs[i].expression)
  }

  // GetFailurePolicy: an unset failure policy means Fail.
  function FailurePolicyOf(p: Policy): string {
    if p.failurePolicy.Some? then p.failurePolicy.value else FAIL
  }

  ghost function Program(p: Policy): CompiledPolicy {
    CompiledPolicy(FailurePolicyOf(p), Conditions(p.matchConditions),
                   Programs(p.variables, |p.variables|), Rules(p.validations))
  }

  ghost function CompiledForm(p: Policy): Option<CompiledPolicy> {
    if Accepted(p) then Some(Program(p)) else None
  }

  // The error names the first offending expression in the order conditions, variables, rules.
  ghost predicate FirstError(p: Policy, e: CompileError) {
    match e.section
    case MatchConditions =>
      && e.index < |p.matchConditions|
      && (forall i :: 0 <= i < e.index ==> MatchOk(p.matchConditions[i]))
      && !MatchOk(p.matchConditions[e.index])
      && (e.reason.DoesNotCheck? <==> Check(p.matchConditions[e.index].expression, map[]).None?)
    case Variables =>
      && e.index < |p.variables| && e.reason.DoesNotCheck?
      && (forall i :: 0 <= i < |p.matchConditions| ==> MatchOk(p.matchConditions[i]))
      && (forall i :: 0 <= i < e.index ==> VariableOk(p.variables, i))
      && !VariableOk(p.variables, e.index)
    case Validations =>
      && e.index < |p.validations|
      && (forall i :: 0 <= i < |p.matchConditions| ==> MatchOk(p.matchConditions[i]))
      && (forall i :: 0 <= i < |p.variables| ==> VariableOk(p.variables, i))
      && (forall i :: 0 <= i < e.index ==> RuleOk(p, p.validations[i]))
      && !RuleOk(p, p.validations[e.index])
      && (e.reason.DoesNotCheck? <==>
          Check(p.validations[e.index].expression, EnvAfter(p.variables, |p.variables|)).None?)
  }

  // ---- What is accepted, by output types -----------------------------------------------

  // envs lists the known fields before each variable and after the last.
  ghost predicate TypedUpTo(p: Policy, envs: seq<map<string, Ty>>, n: nat) {
    && n <= |p.variables| && |envs| == n + 1 && envs[0] == map[]
    && forall i :: 0 <= i < n ==> Registers(p.variables[i], envs[i], envs[i + 1])
  }

  ghost predicate Registers(v: Named, env: map<string, Ty>, next: map<string, Ty>) {
    exists t :: HasType(v.expression, env, t) && next == env[v.name := t]
  }

  ghost predicate IsCondition(c: Named) { HasType(c.expression, map[], TBool) }

  ghost predicate IsRule(v: Validation, env: map<string, Ty>) {
    HasType(v.expression, env, TResponse) || HasType(v.expression, env, TNull)
  }

  ghost predicate WellTyped(p: Policy, envs: seq<map<string, Ty>>) {
    && TypedUpTo(p, envs, |p.variables|)
    && (forall i :: 0 <= i < |p.matchConditions| ==> IsCondition(p.matchConditions[i]))
    && (forall i :: 0 <= i < |p.validations| ==> IsRule(p.validations[i], envs[|p.variables|]))
  }

  ghost predicate HasNoType(e: Expr, env: map<string, Ty>) { forall t :: !HasType(e, env, t) }

  // The first offence, in the order conditions, variables, rules: an expression without a type,
  // or one of another type than its place asks for.
  ghost predicate OffendsFirst(p: Policy, envs: seq<map<string, Ty>>, e: CompileError) {
    match e.section
    case MatchConditions =>
      && e.index < |p.matchConditions| && !IsCondition(p.matchConditions[e.index])
      && (forall i :: 0 <= i < e.index ==> IsCondition(p.matchConditions[i]))
      && (e.reason == DoesNotCheck <==> HasNoType(p.matchConditions[e.index].expression, map[]))
    case Variables =>
      && (forall i :: 0 <= i < |p.matchConditions| ==> IsCondition(p.matchConditions[i]))
      && e.index < |p.variables| && TypedUpTo(p, envs, e.index)
      && HasNoType(p.variables[e.index].expression, envs[e.index]) && e.reason == DoesNotCheck
    case Validations =>
      && (forall i :: 0 <= i < |p.matchConditions| ==> IsCondition(p.matchConditions[i]))
      && TypedUpTo(p, envs, |p.variables|)
      && var env := envs[|p.variables|];
        && e.index < |p.validations| && !IsRule(p.validations[e.index], env)
        && (forall i :: 0 <= i < e.index ==> IsRule(p.validations[i], env))
        && (e.reason == DoesNotCheck <==> HasNoType(p.validations[e.index].expression, env))
  }

  // What compiling yields, field by field: of variables with one name the last stays.
  ghost predicate CompiledAs(p: Policy, c: CompiledPolicy) {
    && c.failurePolicy == (if p.failurePolicy.Some? then p.failurePolicy.value else "Fail")
    && |c.matchConditions| == |p.matchConditions| && |c.rules| == |p.validations|
    && (forall i :: 0 <= i < |p.matchConditions| ==> c.matchConditions[i] == p.matchConditions[i].expression)
    && (forall i :: 0 <= i < |p.validations| ==> c.rules[i] == p.validations[i].expression)
    && (forall x :: x in c.variables <==> exists i :: 0 <= i < |p.variables| && p.variables[i].name == x)
    && (forall i :: 0 <= i < |p.variables| && IsLast(p.variables, i) ==>
        p.variables[i].name in c.variables && c.variables[p.variables[i].name] == p.variables[i].expression)
  }

  ghost predicate IsLast(vars: seq<Named>, i: nat) {
    i < |vars| && forall j :: i < j < |vars| ==> vars[j].name != vars[i].name
  }

  lemma {:induction false} ProgramNames(vars: seq<Named>, n: nat)
    requires n <= |vars|
    ensures Programs(vars, n).Keys == set i | 0 <= i < n :: vars[i].name
    decreases n
  {
    if n > 0 {
      ProgramNames(vars, n - 1);
      assert Programs(vars, n).Keys == Programs(vars, n - 1).Keys + {vars[n - 1].name};
    }
  }

  lemma {:induction false} LastProgram(vars: seq<Named>, i: nat, n: nat)
    requires i < n <= |vars| && forall j :: i < j < n ==> vars[j].name != vars[i].name
    ensures vars[i].name in Programs(vars, n) && Programs(vars, n)[vars[i].name] == vars[i].expression
    decreases n
  {
    if i < n - 1 { LastProgram(vars, i, n - 1); }
  }

  lemma ProgramIs(p: Policy)
    ensures CompiledAs(p, Program(p))
  {
    ProgramNames(p.variables, |p.variables|);
    hide Programs;
    forall i | 0 <= i < |p.variables| && IsLast(p.variables, i)
      ensures var x := p.variables[i].name;
        x in Program(p).variables && Program(p).variables[x] == p.variables[i].expression
    {
      LastProgram(p.variables, i, |p.variables|);
    }
  }

  ghost function Envs(vars: seq<Named>, n: nat): seq<map<string, Ty>>
    requires n <= |vars|
  {
    seq(n + 1, i requires 0 <= i <= n => EnvAfter(vars, i))
  }

  lemma TypedSoFar(p: Policy, n: nat)
    requires n <= |p.variables| && forall i :: 0 <= i < n ==> VariableOk(p.variables, i)
    ensures TypedUpTo(p, Envs(p.variables, n), n)
  {
    hide Check, HasType;
    var envs := Envs(p.variables, n);
    assert EnvAfter(p.variables, 0) == map[];
    forall i | 0 <= i < n ensures Registers(p.variables[i], envs[i], envs[i + 1]) {
      assert VariableOk(p.variables, i);
      CheckIff(p.variables[i].expression, envs[i]);
      var t := Check(p.variables[i].expression, envs[i]).value;
      assert HasType(p.variables[i].expression, envs[i], t) && envs[i + 1] == envs[i][p.variables[i].name := t];
    }
  }

  lemma {:induction false} TypedEnvs(p: Policy, envs: seq<map<string, Ty>>, n: nat)
    requires TypedUpTo(p, envs, n)
    ensures envs[n] == EnvAfter(p.variables, n) && forall i :: 0 <= i < n ==> VariableOk(p.variables, i)
    decreases n
  {
    hide Check, HasType;
    if n > 0 {
      forall i | 0 <= i < n - 1 ensures Registers(p.variables[i], envs[..n][i], envs[..n][i + 1]) {
        assert Registers(p.variables[i], envs[i], envs[i + 1]);
      }
      TypedEnvs(p, envs[..n], n - 1);
      var v, env := p.variables[n - 1], envs[n - 1];
      assert Registers(v, env, envs[n]);
      var t :| HasType(v.expression, env, t) && envs[n] == env[v.name := t];
      CheckIff(v.expression, env);
    }
  }

  lemma GatesAre(p: Policy)
    ensures forall i :: 0 <= i < |p.matchConditions| ==>
      (MatchOk(p.matchConditions[i]) <==> IsCondition(p.matchConditions[i]))
    ensures forall i :: 0 <= i < |p.validations| ==>
      (RuleOk(p, p.validations[i]) <==> IsRule(p.validations[i], EnvAfter(p.variables, |p.variables|)))
  {
    hide Check, HasType, EnvAfter;
    forall i | 0 <= i < |p.matchConditions|
      ensures MatchOk(p.matchConditions[i]) <==> IsCondition(p.matchConditions[i])
    {
      CheckIff(p.matchConditions[i].expression, map[]);
    }
    var env := EnvAfter(p.variables, |p.variables|);
    forall i | 0 <= i < |p.validations| ensures RuleOk(p, p.validations[i]) <==> IsRule(p.validations[i], env) {
      CheckIff(p.validations[i].expression, env);
    }
  }

  lemma AcceptedIff(p: Policy)
    ensures Accepted(p) <==> exists envs :: WellTyped(p, envs)
  {
    hide Check, HasType, MatchOk, RuleOk, VariableOk, IsCondition, IsRule, EnvAfter;
    GatesAre(p);
    if Accepted(p) {
      TypedSoFar(p, |p.variables|);
      assert WellTyped(p, Envs(p.variables, |p.variables|));
    }
    if envs :| WellTyped(p, envs) { TypedEnvs(p, envs, |p.variables|); }
  }

  lemma NoTypeIff(e: Expr, env: map<string, Ty>)
    ensures Check(e, env).None? <==> HasNoType(e, env)
  {
    hide Check, HasType;
    CheckIff(e, env);
    if Check(e, env).Some? { assert HasType(e, env, Check(e, env).value); }
  }

  lemma FirstErrorOffends(p: Policy, e: CompileError)
    requires FirstError(p, e)
    ensures exists envs :: OffendsFirst(p, envs, e)
  {
    GatesAre(p);
    match e.section {
      case MatchConditions =>
        NoTypeIff(p.matchConditions[e.index].expression, map[]);
        hide Check, HasType;
        assert OffendsFirst(p, [], e);
      case Variables =>
        TypedSoFar(p, e.index);
        NoTypeIff(p.variables[e.index].expression, EnvAfter(p.variables, e.index));
        hide Check, HasType, EnvAfter;
        assert OffendsFirst(p, Envs(p.variables, e.index), e);
      case Validations =>
        TypedSoFar(p, |p.variables|);
        NoTypeIff(p.validations[e.index].expression, EnvAfter(p.variables, |p.variables|));
        hide Check, HasType, EnvAfter;
        assert OffendsFirst(p, Envs(p.variables, |p.variables|), e);
    }
  }

  method Compile(p: Policy) returns (r: CompileResult)
    ensures r.Compiled? <==> Accepted(p)
    ensures r.Compiled? ==> r.policy == Program(p)
    ensures r.Rejected? ==> FirstError(p, r.error)
    ensures r.Compiled? <==> exists envs :: WellTyped(p, envs)
    ensures r.Compiled? ==> CompiledAs(p, r.policy)
    ensures r.Rejected? ==> exists envs :: OffendsFirst(p, envs, r.error)
  {
    r := CompileInOrder(p);
    AcceptedIff(p);
    if r.Rejected? { FirstErrorOffends(p, r.error); } else { ProgramIs(p); }
  }

  // The three loops.
  method CompileInOrder(p: Policy) returns (r: CompileResult)
    ensures r.Compiled? <==> Accepted(p)
    ensures r.Compiled? ==> r.policy == Program(p)
    ensures r.Rejected? ==> FirstError(p, r.error)
  {
    var provider := new VariablesProvider();
    var matchConditions: seq<Expr> := [];
    for i := 0 to |p.matchConditions|
      invariant provider.Valid() && provider.fields == map[] && fresh(provider)
      invariant matchConditions == Conditions(p.matchConditions)[..i]
      invariant forall j :: 0 <= j < i ==> MatchOk(p.matchConditions[j])
    {
      var expr := p.matchConditions[i].expression;
      var t := Check(expr, provider.fields);
      if t.None? { return Rejected(CompileError(MatchConditions, i, DoesNotCheck)); }
      if t.value != TBool { return Rejected(CompileError(MatchConditions, i, WrongOutputType)); }
      matchConditions := matchConditions + [expr];
    }
    var variables: map<string, Expr> := map[];
    for i := 0 to |p.variables|
      invariant provider.Valid() && provider.fields == EnvAfter(p.variables, i) && fresh(provider)
      invariant variables == Programs(p.variables, i)
      invariant forall j :: 0 <= j < i ==> VariableOk(p.variables, j)
    {
      var variable := p.variables[i];
      var t := Check(variable.expression, provider.fields);
      if t.None? {
        assert !VariableOk(p.variables, i);
        return Rejected(CompileError(Variables, i, DoesNotCheck));
      }
      provider.RegisterField(variable.name, t.value);
      variables := variables[variable.name := variable.expression];
    }
    var rules: seq<Expr> := [];
    for i := 0 to |p.validations|
      invariant provider.fields == EnvAfter(p.variables, |p.variables|)
      invariant rules == Rules(p.validations)[..i]
      invariant forall j :: 0 <= j < i ==> RuleOk(p, p.validations[j])
    {
      var rule := CompileAuthorization(i, p.validations[i], provider.fields);
      if rule.Some? { return Rejected(rule.value); }
      rules := rules + [p.validations[i].expression];
    }
    r := Compiled(CompiledPolicy(FailurePolicyOf(p), matchConditions, variables, rules));
  }

  // None when the rule is fine.
  function CompileAuthorization(i: nat, rule: Validation, env: TypeEnv): Option<CompileError> {
    var t := Check(rule.expression, env);
    if t.None? then Some(CompileError(Validations, i, DoesNotCheck))
    else if t.value != TResponse && t.value != TNull then Some(CompileError(Validations, i, WrongOutputType))
    else None
  }

  // A comparison of strings is a condition, and a response a rule.
  const POSTS := Eq(Object("attributes.method", TString), StrLit("POST"))

  lemma ComparisonsAreAccepted()
    ensures Accepted(Policy("p", "HTTP", None, [Named("m", POSTS)], [], [Validation(NewResponse, "", None, "")]))
  {
    var p := Policy("p", "HTTP", None, [Named("m", POSTS)], [], [Validation(NewResponse, "", None, "")]);
    var envs: seq<map<string, Ty>> := [map[]];
    assert HasType(Object("attributes.method", TString), map[], TString) && HasType(StrLit("POST"), map[], TString);
    assert IsCondition(p.matchConditions[0]) && IsRule(p.validations[0], map[]);
    assert WellTyped(p, envs);
    AcceptedIff(p);
  }
}
