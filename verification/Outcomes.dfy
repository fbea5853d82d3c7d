/** What one policy makes of a request, case by case, said of the conditions, rules and failure
    policy as written. */
module Outcomes {
  import opened Cel
  import opened Options
  import opened Policies
  import opened Compiler
  import opened Reference
  import opened Engine
  import opened Decisions

  ghost function ConditionValue(p: Policy, i: nat, q: Request): Res<Resp>
    requires i < |p.matchConditions|
  {
    Denote(p.matchConditions[i].expression, map[], q, MatchScope)
  }

  ghost function RuleValue(p: Policy, j: nat, q: Request): Res<Resp>
    requires j < |p.validations|
  {
    Denote(p.validations[j].expression, Eager(p.variables, |p.variables|, q), q, RuleScope)
  }

  // Every condition is true, and every rule before j is null.
  ghost predicate Reaches(p: Policy, j: nat, q: Request) {
    && (forall i :: 0 <= i < |p.matchConditions| ==> ConditionValue(p, i, q) == Val(VBool(true)))
    && j <= |p.validations| && forall i :: 0 <= i < j ==> RuleValue(p, i, q) == Val(VNull)
  }

  ghost predicate AnswersWith(p: Policy, j: nat, r: Resp, q: Request) {
    Reaches(p, j, q) && j < |p.validations| && RuleValue(p, j, q) == Val(VResp(r))
  }

  ghost predicate RuleErrs(p: Policy, j: nat, msg: string, q: Request) {
    Reaches(p, j, q) && j < |p.validations| && RuleValue(p, j, q) == Err(msg)
  }

  ghost predicate Fails(p: Policy) { p.failurePolicy == None || p.failurePolicy == Some("Fail") }

  // No condition is false, and errs lists those that err, in order.
  ghost predicate ConditionsErr(p: Policy, errs: seq<nat>, q: Request) {
    && (forall i :: 0 <= i < |p.matchConditions| ==> ConditionValue(p, i, q) != Val(VBool(false)))
    && errs != [] && ErrsListed(p, errs, |p.matchConditions|, q)
  }

  ghost predicate ErrsListed(p: Policy, errs: seq<nat>, n: nat, q: Request) {
    && n <= |p.matchConditions|
    && (forall k :: 0 <= k < |errs| ==> errs[k] < n && ConditionValue(p, errs[k], q).Err?)
    && (forall k, l :: 0 <= k < l < |errs| ==> errs[k] < errs[l])
    && (forall i: nat :: i < n && ConditionValue(p, i, q).Err? ==> i in errs)
  }

  ghost function Messages(p: Policy, errs: seq<nat>, q: Request): seq<string>
    requires forall k :: 0 <= k < |errs| ==> errs[k] < |p.matchConditions| && ConditionValue(p, errs[k], q).Err?
  {
    seq(|errs|, k requires 0 <= k < |errs| => ConditionValue(p, errs[k], q).msg)
  }

  lemma SameConditions(p: Policy, q: Request)
    ensures forall i :: 0 <= i < |p.matchConditions| ==> Condition(p, i, q) == ConditionValue(p, i, q)
  {
    hide Denote;
  }

  lemma {:induction false} ErrorsListed(p: Policy, errs: seq<nat>, n: nat, q: Request)
    requires ErrsListed(p, errs, n, q)
    ensures |ConditionErrors(p, n, q)| == |errs|
    ensures forall k :: 0 <= k < |errs| ==> ConditionErrors(p, n, q)[k] == ConditionValue(p, errs[k], q).msg
    decreases n
  {
    SameConditions(p, q);
    hide Condition, ConditionValue;
    if n == 0 {
      ListedBelow(p, errs, n, q);
    } else if ConditionValue(p, n - 1, q).Err? {
      var front := LastErrs(p, errs, n, q);
      ErrorsListed(p, front, n - 1, q);
    } else {
      assert ErrsListed(p, errs, n - 1, q);
      ErrorsListed(p, errs, n - 1, q);
    }
  }

  lemma ListedBelow(p: Policy, errs: seq<nat>, n: nat, q: Request)
    requires ErrsListed(p, errs, n, q)
    ensures errs != [] ==> errs[0] < n
  {
    hide ConditionValue;
  }

  // The condition at n - 1 errs, so it is the last listed.
  lemma LastErrs(p: Policy, errs: seq<nat>, n: nat, q: Request) returns (front: seq<nat>)
    requires n > 0 && ErrsListed(p, errs, n, q) && ConditionValue(p, n - 1, q).Err?
    ensures errs == front + [n - 1] && ErrsListed(p, front, n - 1, q)
  {
    hide ConditionValue;
    var k :| 0 <= k < |errs| && errs[k] == n - 1;
    var last := |errs| - 1;
    assert errs[last] < n;
    assert k == last;
    front := errs[..last];
    forall i: nat | i < n - 1 && ConditionValue(p, i, q).Err? ensures i in front {
      var l :| 0 <= l < |errs| && errs[l] == i;
      assert front[l] == i;
    }
  }

  lemma MessagesAre(p: Policy, errs: seq<nat>, q: Request)
    requires ErrsListed(p, errs, |p.matchConditions|, q)
    ensures ConditionErrors(p, |p.matchConditions|, q) == Messages(p, errs, q)
  {
    hide ConditionErrors, ConditionValue;
    ErrorsListed(p, errs, |p.matchConditions|, q);
  }

  lemma FailsMeans(p: Policy)
    ensures FailurePolicyOf(p) == FAIL <==> Fails(p)
  {}

  // The rules of the policy decide by its first value that is not null.
  lemma RulesAre(p: Policy, j: nat, q: Request)
    requires j <= |p.validations| && forall i :: 0 <= i < j ==> RuleValue(p, i, q) == Val(VNull)
    ensures var raw := ReferenceRules(Rules(p.validations), Eager(p.variables, |p.variables|, q), q);
      if j == |p.validations| then raw == Nothing
      else RuleValue(p, j, q) != Val(VNull) ==> raw == RawOf(RuleValue(p, j, q))
  {
    hide Denote, Eager, ReferenceRules;
    var rules, rho := Rules(p.validations), Eager(p.variables, |p.variables|, q);
    forall i | 0 <= i < j ensures Denote(rules[i], rho, q, RuleScope) == Val(VNull) {
      assert RuleValue(p, i, q) == Val(VNull);
    }
    if j == |p.validations| {
      NullRulesAbstain(rules, rho, q);
    } else if RuleValue(p, j, q) != Val(VNull) {
      assert FirstDeciding(rules, rho, q, j);
      FirstRuleDecides(rules, rho, q, j);
    }
  }

  lemma NoneFalseNoneErrs(p: Policy, j: nat, q: Request)
    requires Reaches(p, j, q)
    ensures !SomeConditionFalse(p, q) && ConditionErrors(p, |p.matchConditions|, q) == []
  {
    SameConditions(p, q);
    hide Condition, ConditionValue;
    assert ErrsListed(p, [], |p.matchConditions|, q);
    ErrorsListed(p, [], |p.matchConditions|, q);
  }

  // With every condition true and every earlier rule null, a rule's response is the outcome as it
  // is, and its error is the outcome under Fail or no failure policy and nothing under another.
  lemma RuleDecides(p: Policy, j: nat, q: Request)
    requires Readable(p) && QuietRun(Program(p), q) && Reaches(p, j, q)
    ensures forall r :: AnswersWith(p, j, r, q) ==> OutcomeOf(Program(p), q) == Respond(r)
    ensures forall msg :: RuleErrs(p, j, msg, q) ==>
      OutcomeOf(Program(p), q) == if Fails(p) then Reject(Errors([msg])) else Abstain
    ensures j == |p.validations| ==> OutcomeOf(Program(p), q) == Abstain
  {
    PolicyDecides(p, q);
    NoneFalseNoneErrs(p, j, q);
    RulesAre(p, j, q);
    FailsMeans(p);
    hide Denote, Readable, QuietRun, OutcomeOf, Program, Eager, ReferenceRules, ConditionErrors, SomeConditionFalse;
    hide FailurePolicyOf, Fails, RuleValue, ConditionValue;
  }

  // A false condition skips the policy; otherwise the errors of the conditions, all and in order,
  // are the outcome under Fail or no failure policy and nothing under another.
  lemma ConditionsDecide(p: Policy, q: Request)
    requires Readable(p) && QuietRun(Program(p), q)
    ensures (exists i :: 0 <= i < |p.matchConditions| && ConditionValue(p, i, q) == Val(VBool(false))) ==>
      OutcomeOf(Program(p), q) == Abstain
    ensures forall errs :: ConditionsErr(p, errs, q) ==>
      OutcomeOf(Program(p), q) == if Fails(p) then Reject(Errors(Messages(p, errs, q))) else Abstain
  {
    PolicyDecides(p, q);
    SameConditions(p, q);
    FailsMeans(p);
    hide Denote, Readable, QuietRun, OutcomeOf, Program, Eager, ReferenceRules, ConditionErrors, Condition;
    hide FailurePolicyOf, Fails, ConditionValue;
    forall errs | ConditionsErr(p, errs, q)
      ensures OutcomeOf(Program(p), q) == if Fails(p) then Reject(Errors(Messages(p, errs, q))) else Abstain
    {
      MessagesAre(p, errs, q);
    }
  }

  // The policies that say nothing: a false condition, only null rules, or an error under a failure
  // policy other than Fail.
  ghost predicate Silent(p: Policy, q: Request) {
    || (exists i :: 0 <= i < |p.matchConditions| && ConditionValue(p, i, q) == Val(VBool(false)))
    || Reaches(p, |p.validations|, q)
    || (!Fails(p) && ((exists errs :: ConditionsErr(p, errs, q)) || exists j, msg :: RuleErrs(p, j, msg, q)))
  }

  lemma SilentAbstains(p: Policy, q: Request)
    requires Readable(p) && QuietRun(Program(p), q) && Silent(p, q)
    ensures OutcomeOf(Program(p), q) == Abstain
  {
    ConditionsDecide(p, q);
    hide Denote, Readable, QuietRun, OutcomeOf, Program, Eager;
    if Reaches(p, |p.validations|, q) { RuleDecides(p, |p.validations|, q); }
    if j, msg :| RuleErrs(p, j, msg, q) { RuleDecides(p, j, q); }
  }
}
