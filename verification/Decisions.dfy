/** What an accepted policy decides: the compiled, lazily evaluated form against the policy as
    written. Accepted is what Compile accepts; variable names are unique by the resource's
    schema. The run on a request must change no response that a variable remembers (QuietRun);
    policies that build on their own responses only meet that on every request. */
module Decisions {
  import opened Cel
  import opened Options
  import opened Policies
  import opened Compiler
  import opened Soundness
  import opened Reference
  import opened LastCalls
  import opened Engine

  ghost predicate UniqueNames(vars: seq<Named>) {
    forall i, j :: 0 <= i < j < |vars| ==> vars[i].name != vars[j].name
  }

  // No builder is called on a variable's response, except in the last calls of a rule.
  ghost predicate NoSharedBuilders(p: Policy) {
    && (forall i :: 0 <= i < |p.variables| ==> Unshared(p.variables[i].expression))
    && (forall i :: 0 <= i < |p.validations| ==> UnsharedButTail(p.validations[i].expression))
  }

  // ---- Declarations of a policy --------------------------------------------------------

  ghost function DeclsOf(vars: seq<Named>): Decls {
    Decls(seq(|vars|, i requires 0 <= i < |vars| => vars[i].name),
          Programs(vars, |vars|),
          seq(|vars| + 1, i requires 0 <= i <= |vars| => EnvAfter(vars, i)))
  }

  lemma {:induction false} ProgramAt(vars: seq<Named>, n: nat, i: nat)
    requires UniqueNames(vars) && i < n <= |vars|
    ensures vars[i].name in Programs(vars, n) && Programs(vars, n)[vars[i].name] == vars[i].expression
    decreases n
  {
    if i < n - 1 { ProgramAt(vars, n - 1, i); }
  }

  lemma {:induction false} NotYetKnown(vars: seq<Named>, n: nat, i: nat)
    requires UniqueNames(vars) && n <= i < |vars|
    ensures vars[i].name !in EnvAfter(vars, n)
    decreases n
  {
    if n > 0 { NotYetKnown(vars, n - 1, i); }
  }

  lemma DeclOkAt(vars: seq<Named>, i: nat)
    requires UniqueNames(vars) && i < |vars| && VariableOk(vars, i)
    ensures DeclOk(DeclsOf(vars), i)
  {
    hide Check;
    ProgramAt(vars, |vars|, i);
    NotYetKnown(vars, i, i);
    var t := Check(vars[i].expression, EnvAfter(vars, i));
    assert EnvAfter(vars, i + 1) == EnvAfter(vars, i)[vars[i].name := t.value];
  }

  lemma DeclsShape(vars: seq<Named>)
    ensures var c := DeclsOf(vars);
      |c.names| == |vars| && |c.envs| == |vars| + 1 && c.envs[0] == map[] && c.envs[|vars|] == EnvAfter(vars, |vars|)
  {
    hide Check, Programs;
    assert EnvAfter(vars, 0) == map[];
    hide EnvAfter;
  }

  lemma DeclsOk(vars: seq<Named>)
    requires UniqueNames(vars) && forall i :: 0 <= i < |vars| ==> VariableOk(vars, i)
    ensures WellDeclared(DeclsOf(vars)) && Known(DeclsOf(vars)) == EnvAfter(vars, |vars|)
  {
    hide DeclsOf, EnvAfter, DeclOk, VariableOk, UniqueNames;
    var c := DeclsOf(vars);
    DeclsShape(vars);
    forall i | 0 <= i < |c.names| ensures DeclOk(c, i) { DeclOkAt(vars, i); }
  }

  // ---- Type soundness of whole policies ------------------------------------------------

  const NO_DECLS := Decls([], map[], [map[]])

  lemma ConditionSound(e: Expr, q: Request)
    requires Check(e, map[]) == Some(TBool)
    ensures var r := ConditionResult(e, q); r.Err? || (r.Val? && r.v.VBool?)
  {
    assert Consistent(map[], START);
    EvalSound(e, TBool, 0, NO_DECLS, q, MatchScope, START, 0);
  }

  lemma {:induction false} RulesSound(rules: seq<Expr>, c: Decls, q: Request, st: State, fuel: nat)
    requires WellDeclared(c) && |c.names| <= fuel && Consistent(Known(c), st)
    requires forall i :: 0 <= i < |rules| ==> ResponseLike(Check(rules[i], Known(c)))
    ensures var raw := RunRules(rules, c.exprs, q, st, fuel); !raw.Crashed? && raw != Failed(NotAResponse)
    decreases |rules|
  {
    if rules != [] {
      EvalSound(rules[0], Check(rules[0], Known(c)).value, |c.names|, c, q, RuleScope, st, fuel);
      RulesSound(rules[1..], c, q, Eval(rules[0], c.exprs, q, RuleScope, st, fuel).1, fuel);
    }
  }

  // Conditions yield a boolean or an error; rules yield a response, null or an error; and
  // forcing variables always comes back.
  lemma PolicyIsTypeSound(p: Policy, q: Request)
    requires Accepted(p) && UniqueNames(p.variables)
    ensures forall i :: 0 <= i < |p.matchConditions| ==>
      var r := ConditionResult(p.matchConditions[i].expression, q); r.Err? || (r.Val? && r.v.VBool?)
    ensures var raw := RunPolicy(Program(p), q); !raw.Crashed? && raw != Failed(NotAResponse)
    ensures OutcomeOf(Program(p), q) != Crash
  {
    forall i | 0 <= i < |p.matchConditions|
      ensures var r := ConditionResult(p.matchConditions[i].expression, q); r.Err? || (r.Val? && r.v.VBool?)
    {
      assert MatchOk(p.matchConditions[i]);
      ConditionSound(p.matchConditions[i].expression, q);
    }
    DeclsOk(p.variables);
    var c, rules := DeclsOf(p.variables), Rules(p.validations);
    forall i | 0 <= i < |rules| ensures ResponseLike(Check(rules[i], Known(c))) {
      assert RuleOk(p, p.validations[i]);
    }
    assert Consistent(Known(c), START);
    ProgramsSize(p.variables, |p.variables|);
    RulesSound(rules, c, q, START, |Program(p).variables|);
  }

  lemma {:induction false} ProgramsSize(vars: seq<Named>, n: nat)
    requires UniqueNames(vars) && n <= |vars|
    ensures |Programs(vars, n)| == n
    ensures forall x :: x in Programs(vars, n) ==> exists i :: 0 <= i < n && vars[i].name == x
    decreases n
  {
    if n > 0 {
      ProgramsSize(vars, n - 1);
      assert vars[n - 1].name !in Programs(vars, n - 1);
      assert Programs(vars, n).Keys == Programs(vars, n - 1).Keys + {vars[n - 1].name};
    }
  }

  // ---- Refinement of whole policies ----------------------------------------------------

  // The variables' values, each evaluated once, in the order of declaration.
  ghost function Eager(vars: seq<Named>, n: nat, q: Request): Values
    requires n <= |vars|
  {
    if n == 0 then map[]
    else
      var rho := Eager(vars, n - 1, q);
      rho[vars[n - 1].name := Denote(vars[n - 1].expression, rho, q, RuleScope)]
  }

  lemma DenoteDependsOnKnown(e: Expr, env: TypeEnv, a: Values, b: Values, q: Request, scope: Scope)
    requires Check(e, env).Some?
    requires forall x :: x in env ==> x in a && x in b && a[x] == b[x]
    ensures Denote(e, a, q, scope) == Denote(e, b, q, scope)
  {}

  lemma {:induction false} EagerKeeps(vars: seq<Named>, i: nat, n: nat, q: Request, x: string)
    requires UniqueNames(vars) && i <= n <= |vars| && x in Eager(vars, i, q)
    requires exists j :: 0 <= j < i && vars[j].name == x
    ensures x in Eager(vars, n, q) && Eager(vars, n, q)[x] == Eager(vars, i, q)[x]
    decreases n
  {
    if i < n { EagerKeeps(vars, i, n - 1, q, x); }
  }

  lemma {:induction false} KnownHasIndex(vars: seq<Named>, n: nat, x: string, q: Request) returns (i: nat)
    requires UniqueNames(vars) && n <= |vars| && x in EnvAfter(vars, n)
    ensures i < n && vars[i].name == x && x in Eager(vars, n, q)
    decreases n
  {
    if vars[n - 1].name == x { i := n - 1; } else { i := KnownHasIndex(vars, n - 1, x, q); }
  }

  // Evaluating in order of declaration solves all the definitions at once.
  lemma EagerSolves(vars: seq<Named>, q: Request)
    requires UniqueNames(vars) && forall i :: 0 <= i < |vars| ==> VariableOk(vars, i)
    ensures Solves(DeclsOf(vars), Eager(vars, |vars|, q), q)
  {
    DeclsOk(vars);
    var c, rho := DeclsOf(vars), Eager(vars, |vars|, q);
    forall x ensures SolvedAt(c, rho, q, x) {
      if x in Known(c) { EagerSolvesAt(vars, x, q); }
    }
  }

  lemma EagerSolvesAt(vars: seq<Named>, x: string, q: Request)
    requires UniqueNames(vars) && forall i :: 0 <= i < |vars| ==> VariableOk(vars, i)
    requires x in EnvAfter(vars, |vars|)
    ensures SolvedAt(DeclsOf(vars), Eager(vars, |vars|, q), q, x)
  {
    hide Denote, Check;
    var rho := Eager(vars, |vars|, q);
    var i := KnownHasIndex(vars, |vars|, x, q);
    ProgramAt(vars, |vars|, i);
    EagerKeeps(vars, i + 1, |vars|, q, x);
    forall y | y in EnvAfter(vars, i) ensures y in Eager(vars, i, q) && y in rho && rho[y] == Eager(vars, i, q)[y] {
      var j := KnownHasIndex(vars, i, y, q);
      EagerKeeps(vars, i, |vars|, q, y);
    }
    assert VariableOk(vars, i);
    DenoteDependsOnKnown(vars[i].expression, EnvAfter(vars, i), Eager(vars, i, q), rho, q, RuleScope);
  }

  // Conditions cannot name variables, so they never build on a shared response.
  lemma ConditionUnshared(e: Expr)
    requires Check(e, map[]).Some?
    ensures Unshared(e)
    ensures ResponseLike(Check(e, map[])) ==> FreshRoot(e)
  {}

  function RawOf(r: Res<Resp>): Raw {
    match r
    case Diverge => Crashed
    case Err(msg) => Failed(Errors([msg]))
    case Val(v) => if v.VNull? then Nothing else if v.VResp? then Answered(v.r) else Failed(NotAResponse)
  }

  lemma ConditionRefines(e: Expr, q: Request)
    requires Check(e, map[]) == Some(TBool)
    ensures Deref(ConditionResult(e, q), []) == Denote(e, map[], q, MatchScope)
  {
    ConditionSound(e, q);
    ConditionUnshared(e);
    assert Solves(NO_DECLS, map[], q) && Shadows(map[], START) && AllUnshared(NO_DECLS);
    EvalRefines(true, e, 0, NO_DECLS, map[], q, MatchScope, START, 0);
  }

  // The rules decide as the first one whose reference value is not null.
  ghost predicate FirstDeciding(rules: seq<Expr>, rho: Values, q: Request, j: nat) {
    && j < |rules| && Denote(rules[j], rho, q, RuleScope) != Val(VNull)
    && forall i :: 0 <= i < j ==> Denote(rules[i], rho, q, RuleScope) == Val(VNull)
  }

  ghost function ReferenceRules(rules: seq<Expr>, rho: Values, q: Request): Raw {
    if rules == [] then Nothing
    else
      var raw := RawOf(Denote(rules[0], rho, q, RuleScope));
      if raw.Nothing? then ReferenceRules(rules[1..], rho, q) else raw
  }

  // Every builder call that the rules make, up to the last calls of the one that decides, meets
  // the condition.
  ghost predicate EveryRuleBuild(
    good: BuildTest, rules: seq<Expr>, vars: map<string, Expr>, q: Request, st: State, fuel: nat)
    decreases |rules|
  {
    rules != [] ==>
      && EveryBuildButTail(good, rules[0], vars, q, RuleScope, st, fuel)
      && var (r, st') := Eval(rules[0], vars, q, RuleScope, st, fuel);
        (RuleResult(r, st'.heap).Nothing? ==> EveryRuleBuild(good, rules[1..], vars, q, st', fuel))
  }

  ghost predicate EveryPolicyBuild(good: BuildTest, p: CompiledPolicy, q: Request) {
    VerdictOf(p.matchConditions, q).Applies? ==>
      EveryRuleBuild(good, p.rules, p.variables, q, START, |p.variables|)
  }

  // On this request no builder call, but for the answer's own, changes a response that a variable
  // remembers.
  ghost predicate QuietRun(p: CompiledPolicy, q: Request) { EveryPolicyBuild(Untouched, p, q) }

  lemma {:induction false} RulesRefine(rules: seq<Expr>, c: Decls, rho: Values, q: Request, st: State, fuel: nat)
    requires Solves(c, rho, q) && |c.names| <= fuel && Shadows(rho, st)
    requires forall i :: 0 <= i < |rules| ==> Check(rules[i], Known(c)).Some?
    requires EveryRuleBuild(Untouched, rules, c.exprs, q, st, fuel)
    ensures RunRules(rules, c.exprs, q, st, fuel) == ReferenceRules(rules, rho, q)
    decreases |rules|
  {
    if rules != [] {
      hide Eval, Denote, Check, EveryBuildButTail;
      var k, o1 := |c.names|, Eval(rules[0], c.exprs, q, RuleScope, st, fuel);
      TailRefines(rules[0], k, c, rho, q, RuleScope, st, fuel);
      assert RuleResult(o1.0, o1.1.heap) == RawOf(Denote(rules[0], rho, q, RuleScope));
      if RuleResult(o1.0, o1.1.heap).Nothing? { RulesRefine(rules[1..], c, rho, q, o1.1, fuel); }
    }
  }

  lemma {:induction false} UnsharedRulesAreQuiet(
    rules: seq<Expr>, c: Decls, rho: Values, q: Request, st: State, fuel: nat)
    requires Solves(c, rho, q) && |c.names| <= fuel && Shadows(rho, st) && AllUnshared(c)
    requires forall i :: 0 <= i < |rules| ==> Check(rules[i], Known(c)).Some? && UnsharedButTail(rules[i])
    ensures EveryRuleBuild(Untouched, rules, c.exprs, q, st, fuel)
    decreases |rules|
  {
    if rules != [] {
      hide Eval, Denote, Check, EveryBuildButTail, UnsharedButTail, AllUnshared;
      var k, o1 := |c.names|, Eval(rules[0], c.exprs, q, RuleScope, st, fuel);
      UnsharedTailIsQuiet(rules[0], k, c, rho, q, RuleScope, st, fuel);
      TailRefines(rules[0], k, c, rho, q, RuleScope, st, fuel);
      if RuleResult(o1.0, o1.1.heap).Nothing? { UnsharedRulesAreQuiet(rules[1..], c, rho, q, o1.1, fuel); }
    }
  }

  lemma {:induction false} FirstRuleDecides(rules: seq<Expr>, rho: Values, q: Request, j: nat)
    requires FirstDeciding(rules, rho, q, j)
    ensures ReferenceRules(rules, rho, q) == RawOf(Denote(rules[j], rho, q, RuleScope))
    decreases j
  {
    hide Denote;
    if j > 0 { FirstRuleDecides(rules[1..], rho, q, j - 1); }
  }

  lemma {:induction false} NullRulesAbstain(rules: seq<Expr>, rho: Values, q: Request)
    requires forall i :: 0 <= i < |rules| ==> Denote(rules[i], rho, q, RuleScope) == Val(VNull)
    ensures ReferenceRules(rules, rho, q) == Nothing
    decreases |rules|
  {
    hide Denote;
    if rules != [] {
      assert Denote(rules[0], rho, q, RuleScope) == Val(VNull);
      forall i | 0 <= i < |rules[1..]| ensures Denote(rules[1..][i], rho, q, RuleScope) == Val(VNull) {
        assert rules[1..][i] == rules[i + 1];
      }
      NullRulesAbstain(rules[1..], rho, q);
    }
  }

  // ---- What a policy decides, said of the policy as written ----------------------------

  ghost function Condition(p: Policy, i: nat, q: Request): Res<Resp>
    requires i < |p.matchConditions|
  {
    Denote(p.matchConditions[i].expression, map[], q, MatchScope)
  }

  ghost predicate Readable(p: Policy) { Accepted(p) && UniqueNames(p.variables) }

  lemma DeclsUnshared(p: Policy)
    requires Readable(p) && NoSharedBuilders(p)
    ensures AllUnshared(DeclsOf(p.variables))
  {
    hide Check, Unshared, VariableOk;
    var vars := p.variables;
    DeclsOk(vars);
    ProgramsSize(vars, |vars|);
    var c := DeclsOf(vars);
    forall x | x in Known(c) && x in c.exprs ensures Unshared(c.exprs[x]) {
      var i :| 0 <= i < |vars| && vars[i].name == x;
      ProgramAt(vars, |vars|, i);
    }
  }

  // What the lemmas about rules ask for, of a policy's own declarations.
  lemma PolicyReady(p: Policy, q: Request) returns (c: Decls, rho: Values)
    requires Readable(p)
    ensures c == DeclsOf(p.variables) && rho == Eager(p.variables, |p.variables|, q)
    ensures Solves(c, rho, q) && Shadows(rho, START) && |c.names| == |Program(p).variables| == |p.variables|
    ensures forall i :: 0 <= i < |Program(p).rules| ==> Check(Program(p).rules[i], Known(c)).Some?
  {
    hide Eval, Denote, Check;
    DeclsOk(p.variables);
    EagerSolves(p.variables, q);
    ProgramsSize(p.variables, |p.variables|);
    c, rho := DeclsOf(p.variables), Eager(p.variables, |p.variables|, q);
    forall i | 0 <= i < |Program(p).rules| ensures Check(Program(p).rules[i], Known(c)).Some? {
      assert RuleOk(p, p.validations[i]);
    }
  }

  lemma RunRefines(p: Policy, q: Request)
    requires Readable(p)
    requires EveryRuleBuild(Untouched, Program(p).rules, Program(p).variables, q, START, |Program(p).variables|)
    ensures RunRules(Program(p).rules, Program(p).variables, q, START, |Program(p).variables|) ==
      ReferenceRules(Rules(p.validations), Eager(p.variables, |p.variables|, q), q)
  {
    hide Eval, Denote, Check, EveryRuleBuild, Solves, Shadows, Eager, Readable, Programs, Known;
    var c, rho := PolicyReady(p, q);
    RulesRefine(Program(p).rules, c, rho, q, START, |p.variables|);
  }

  // A policy that builds on its own responses only, but for the last calls of its rules, is quiet
  // on every request.
  lemma NoSharedBuildersIsQuiet(p: Policy, q: Request)
    requires Readable(p) && NoSharedBuilders(p)
    ensures QuietRun(Program(p), q)
  {
    hide Eval, Denote, Check, EveryRuleBuild, Solves, Shadows, Eager, Readable, Programs, Known, VerdictOf,
        UnsharedButTail, AllUnshared;
    var c, rho := PolicyReady(p, q);
    DeclsUnshared(p);
    forall i | 0 <= i < |Program(p).rules| ensures UnsharedButTail(Program(p).rules[i]) {
      assert UnsharedButTail(p.validations[i].expression);
    }
    UnsharedRulesAreQuiet(Program(p).rules, c, rho, q, START, |p.variables|);
  }

  // The errors of the first n conditions, in order.
  ghost function ConditionErrors(p: Policy, n: nat, q: Request): seq<string>
    requires n <= |p.matchConditions|
  {
    if n == 0 then []
    else
      var r := Condition(p, n - 1, q);
      ConditionErrors(p, n - 1, q) + if r.Err? then [r.msg] else []
  }

  ghost predicate SomeConditionFalse(p: Policy, q: Request) {
    exists i :: 0 <= i < |p.matchConditions| && Condition(p, i, q) == Val(VBool(false))
  }

  lemma ConditionAgrees(p: Policy, i: nat, q: Request)
    requires Accepted(p) && i < |p.matchConditions|
    ensures var r := ConditionResult(p.matchConditions[i].expression, q);
      && (r == Val(VBool(false)) <==> Condition(p, i, q) == Val(VBool(false)))
      && Complaint(r) == if Condition(p, i, q).Err? then [Condition(p, i, q).msg] else []
  {
    hide Eval, Denote, Check;
    assert MatchOk(p.matchConditions[i]);
    ConditionRefines(p.matchConditions[i].expression, q);
    ConditionSound(p.matchConditions[i].expression, q);
  }

  lemma {:induction false} ErrorsAgree(p: Policy, n: nat, q: Request)
    requires Accepted(p) && n <= |p.matchConditions|
    ensures Complaints(Program(p).matchConditions[..n], q) == ConditionErrors(p, n, q)
    decreases n
  {
    hide Accepted, ConditionResult, Condition;
    if n > 0 {
      var cs := Program(p).matchConditions;
      ErrorsAgree(p, n - 1, q);
      ConditionAgrees(p, n - 1, q);
      assert cs[..n] == cs[..n - 1] + [cs[n - 1]];
      ComplaintsAppend(cs[..n - 1], [cs[n - 1]], q);
      assert Complaints([cs[n - 1]], q) == Complaint(ConditionResult(cs[n - 1], q)) + Complaints([], q);
    }
  }

  // False dominates error, error dominates true.
  lemma MatchDecides(p: Policy, q: Request)
    requires Accepted(p)
    ensures VerdictOf(Program(p).matchConditions, q) ==
      if SomeConditionFalse(p, q) then Skips
      else if ConditionErrors(p, |p.matchConditions|, q) == [] then Applies
      else Breaks(ConditionErrors(p, |p.matchConditions|, q))
  {
    hide Accepted, ConditionResult, Condition;
    var cs := Program(p).matchConditions;
    ErrorsAgree(p, |cs|, q);
    assert cs[..|cs|] == cs;
    forall i | 0 <= i < |cs|
      ensures ConditionResult(cs[i], q) == Val(VBool(false)) <==> Condition(p, i, q) == Val(VBool(false))
    {
      ConditionAgrees(p, i, q);
    }
    if SomeFalse(cs, q) {
      var c :| c in cs && ConditionResult(c, q) == Val(VBool(false));
      var i :| 0 <= i < |cs| && cs[i] == c;
      assert Condition(p, i, q) == Val(VBool(false));
    }
  }

  // The decision the documentation describes: any false condition skips the policy; otherwise
  // an error, of a condition or of the first rule that is not null, is settled by the failure
  // policy; otherwise that rule answers.
  ghost function ReferenceOutcome(p: Policy, q: Request): Outcome {
    var errors := ConditionErrors(p, |p.matchConditions|, q);
    if SomeConditionFalse(p, q) then Abstain
    else if errors != [] then Settle(FailurePolicyOf(p), Failed(Errors(errors)))
    else Settle(FailurePolicyOf(p), ReferenceRules(Rules(p.validations), Eager(p.variables, |p.variables|, q), q))
  }

  lemma PolicyDecides(p: Policy, q: Request)
    requires Readable(p) && QuietRun(Program(p), q)
    ensures OutcomeOf(Program(p), q) == ReferenceOutcome(p, q)
  {
    hide Eval, Denote, Check, ConditionResult, Condition, EveryRuleBuild;
    MatchDecides(p, q);
    if VerdictOf(Program(p).matchConditions, q).Applies? { RunRefines(p, q); }
  }

  // An error, said of the policy as written: no condition is false, and a condition errs or the
  // first rule that is not null does.
  ghost predicate ErrsAsWritten(p: Policy, q: Request) {
    !SomeConditionFalse(p, q) &&
    (ConditionErrors(p, |p.matchConditions|, q) != [] ||
     ReferenceRules(Rules(p.validations), Eager(p.variables, |p.variables|, q), q).Failed?)
  }

  lemma ErrorsAsWritten(p: Policy, q: Request)
    requires Readable(p) && QuietRun(Program(p), q)
    ensures RunPolicy(Program(p), q).Failed? <==> ErrsAsWritten(p, q)
  {
    hide Eval, Denote, Check, ConditionResult, Condition, EveryRuleBuild;
    MatchDecides(p, q);
    if VerdictOf(Program(p).matchConditions, q).Applies? { RunRefines(p, q); }
  }
}
