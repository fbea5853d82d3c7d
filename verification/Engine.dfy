/** One policy on one request (pkg/engine/vpol/compiler/policy.go): match conditions, lazily
    evaluated variables, rules in order, and the failure-policy wrapper. */
module Engine {
  import opened Cel
  import opened Policies
  import opened Compiler

  // ---- Match conditions ----------------------------------------------------------------

  datatype Verdict = Applies | Skips | Breaks(msgs: seq<string>)

  const NOT_BOOL := "type conversion error"

  // A condition sees `object` only, so it starts from nothing and forces nothing.
  function ConditionResult(c: Expr, q: Request): Res<Addr> {
    Eval(c, map[], q, MatchScope, START, 0).0
  }

  function Complaint(r: Res<Addr>): seq<string> {
    match r
    case Err(msg) => [msg]
    case Diverge => []
    case Val(v) => if v.VBool? then [] else [NOT_BOOL]
  }

  function Complaints(cs: seq<Expr>, q: Request): seq<string> {
    if cs == [] then [] else Complaint(ConditionResult(cs[0], q)) + Complaints(cs[1..], q)
  }

  predicate SomeFalse(cs: seq<Expr>, q: Request) {
    exists c :: c in cs && ConditionResult(c, q) == Val(VBool(false))
  }

  // False dominates error, error dominates true.
  function VerdictOf(cs: seq<Expr>, q: Request): Verdict {
    if SomeFalse(cs, q) then Skips
    else if Complaints(cs, q) == [] then Applies
    else Breaks(Complaints(cs, q))
  }

  lemma {:induction false} ComplaintsAppend(a: seq<Expr>, b: seq<Expr>, q: Request)
    ensures Complaints(a + b, q) == Complaints(a, q) + Complaints(b, q)
  {
    if a == [] {
      assert a + b == b;
    } else {
      assert (a + b)[1..] == a[1..] + b;
      ComplaintsAppend(a[1..], b, q);
    }
  }

  method Match(p: CompiledPolicy, q: Request) returns (v: Verdict)
    ensures v == VerdictOf(p.matchConditions, q)
  {
    var cs := p.matchConditions;
    var errs: seq<string> := [];
    for i := 0 to |cs|
      invariant errs == Complaints(cs[..i], q)
      invariant !SomeFalse(cs[..i], q)
    {
      assert cs[..i + 1] == cs[..i] + [cs[i]];
      ComplaintsAppend(cs[..i], [cs[i]], q);
      var out := ConditionResult(cs[i], q);
      assert Complaints([cs[i]], q) == Complaint(out);
      if out.Err? {
        errs := errs + [out.msg];
        continue;
      }
      if out.Val? && !out.v.VBool? {
        errs := errs + [NOT_BOOL];
        continue;
      }
      if out.Val? && !out.v.b { return Skips; }
    }
    assert cs[..|cs|] == cs;
    v := if errs == [] then Applies else Breaks(errs);
  }

  // The order in which conditions are listed does not matter.
  lemma VerdictIgnoresOrder(a: seq<Expr>, b: seq<Expr>, q: Request)
    requires multiset(a) == multiset(b)
    ensures VerdictOf(a, q).Skips? <==> VerdictOf(b, q).Skips?
    ensures VerdictOf(a, q).Applies? <==> VerdictOf(b, q).Applies?
    ensures VerdictOf(a, q).Breaks? ==> multiset(VerdictOf(a, q).msgs) == multiset(VerdictOf(b, q).msgs)
  {
    assert forall c :: c in a <==> c in multiset(a);
    assert forall c :: c in b <==> c in multiset(b);
    ComplaintsIgnoreOrder(a, b, q);
    assert |Complaints(a, q)| == |multiset(Complaints(a, q))|;
  }

  lemma ComplaintsWithout(b: seq<Expr>, j: nat, q: Request)
    requires j < |b|
    ensures multiset(Complaints(b, q)) ==
      multiset(Complaint(ConditionResult(b[j], q))) + multiset(Complaints(b[..j] + b[j + 1..], q))
  {
    var l, c, r := b[..j], [b[j]], b[j + 1..];
    assert b == l + (c + r);
    assert Complaints(c, q) == Complaint(ConditionResult(b[j], q)) + Complaints(c[1..], q);
    hide Complaints, ConditionResult;
    ComplaintsAppend(l, c + r, q);
    ComplaintsAppend(c, r, q);
    ComplaintsAppend(l, r, q);
  }

  lemma Cancel<T>(x: T, a: multiset<T>, b: multiset<T>)
    requires multiset{x} + a == multiset{x} + b
    ensures a == b
  {
    assert a == (multiset{x} + a) - multiset{x} && b == (multiset{x} + b) - multiset{x};
  }

  lemma TakenOut<T>(a: seq<T>, j: nat)
    requires j < |a|
    ensures multiset(a) == multiset{a[j]} + multiset(a[..j] + a[j + 1..])
  {
    assert a == a[..j] + ([a[j]] + a[j + 1..]);
    assert multiset(a) == multiset(a[..j]) + (multiset{a[j]} + multiset(a[j + 1..]));
  }

  // Taking one occurrence of the first element out of a permutation leaves a permutation.
  lemma WithoutFirst<T>(a: seq<T>, b: seq<T>) returns (j: nat)
    requires a != [] && multiset(a) == multiset(b)
    ensures j < |b| && b[j] == a[0] && multiset(a[1..]) == multiset(b[..j] + b[j + 1..])
  {
    assert a[0] in multiset(b);
    j :| 0 <= j < |b| && b[j] == a[0];
    TakenOut(a, 0);
    assert a[..0] + a[0 + 1..] == a[1..];
    TakenOut(b, j);
    Cancel(a[0], multiset(a[1..]), multiset(b[..j] + b[j + 1..]));
  }

  lemma {:induction false} ComplaintsIgnoreOrder(a: seq<Expr>, b: seq<Expr>, q: Request)
    requires multiset(a) == multiset(b)
    ensures multiset(Complaints(a, q)) == multiset(Complaints(b, q))
    decreases |a|
  {
    if a == [] {
      assert |b| == |multiset(b)| == 0;
    } else {
      hide Complaints, ConditionResult;
      var j := WithoutFirst(a, b);
      ComplaintsIgnoreOrder(a[1..], b[..j] + b[j + 1..], q);
      ComplaintsWithout(a, 0, q);
      ComplaintsWithout(b, j, q);
      assert a[..0] + a[1..] == a[1..];
    }
  }

  // ---- Rules ---------------------------------------------------------------------------

  datatype Cause = Errors(msgs: seq<string>) | NotAResponse

  // What match and rules make of a request, before the failure policy.
  datatype Raw = Answered(resp: Resp) | Nothing | Failed(cause: Cause) | Crashed

  // The conversions of evaluateHTTP.
  function RuleResult(r: Res<Addr>, heap: seq<Resp>): Raw {
    match r
    case Diverge => Crashed
    case Err(msg) => Failed(Errors([msg]))
    case Val(v) =>
      if v.VNull? then Nothing
      else if v.VResp? && v.r < |heap| then Answered(heap[v.r])
      else Failed(NotAResponse)
  }

  // Rules share one lazy variable map; the first that does not yield null decides.
  function RunRules(rules: seq<Expr>, vars: map<string, Expr>, q: Request, st: State, fuel: nat): Raw {
    if rules == [] then Nothing
    else
      var (r, st') := Eval(rules[0], vars, q, RuleScope, st, fuel);
      var raw := RuleResult(r, st'.heap);
      if raw.Nothing? then RunRules(rules[1..], vars, q, st', fuel) else raw
  }

  function RunPolicy(p: CompiledPolicy, q: Request): Raw {
    match VerdictOf(p.matchConditions, q)
    case Breaks(msgs) => Failed(Errors(msgs))
    case Skips => Nothing
    case Applies => RunRules(p.rules, p.variables, q, START, |p.variables|)
  }

  // ---- The failure policy --------------------------------------------------------------

  datatype Outcome = Respond(resp: Resp) | Abstain | Reject(cause: Cause) | Crash

  function Settle(failurePolicy: string, raw: Raw): Outcome {
    match raw
    case Answered(resp) => Respond(resp)
    case Nothing => Abstain
    case Crashed => Crash
    case Failed(cause) => if failurePolicy == FAIL then Reject(cause) else Abstain
  }

  function OutcomeOf(p: CompiledPolicy, q: Request): Outcome { Settle(p.failurePolicy, RunPolicy(p, q)) }

  method ForHTTP(p: CompiledPolicy, q: Request) returns (o: Outcome)
    ensures o == OutcomeOf(p, q)
    ensures var raw := RunPolicy(p, q);
      && (raw.Answered? ==> o == Respond(raw.resp)) && (raw.Nothing? ==> o == Abstain) && (raw.Crashed? ==> o == Crash)
      && (raw.Failed? && p.failurePolicy == "Fail" ==> o == Reject(raw.cause))
      && (raw.Failed? && p.failurePolicy != "Fail" ==> o == Abstain)
  {
    var raw := Inner(p, q);
    match raw {
      case Answered(resp) => o := Respond(resp);
      case Nothing => o := Abstain;
      case Crashed => o := Crash;
      case Failed(cause) =>
        if p.failurePolicy == "Fail" { o := Reject(cause); } else { o := Abstain; }
    }
  }

  method Inner(p: CompiledPolicy, q: Request) returns (raw: Raw)
    ensures raw == RunPolicy(p, q)
  {
    var verdict := Match(p, q);
    match verdict {
      case Breaks(msgs) => return Failed(Errors(msgs));
      case Skips => return Nothing;
      case Applies =>
    }
    var callbacks := LazyVariables(p);
    var st, fuel := START, |callbacks|;
    for i := 0 to |p.rules|
      invariant RunRules(p.rules, p.variables, q, START, fuel) == RunRules(p.rules[i..], p.variables, q, st, fuel)
    {
      var (r, st') := Eval(p.rules[i], callbacks, q, RuleScope, st, fuel);
      st := st';
      var result := RuleResult(r, st.heap);
      if !result.Nothing? { return result; }
      assert p.rules[i..][1..] == p.rules[i + 1..];
    }
    raw := Nothing;
  }

  // Appending the callbacks to the lazy map, in whatever order the map of programs is ranged.
  method LazyVariables(p: CompiledPolicy) returns (callbacks: map<string, Expr>)
    ensures callbacks == p.variables
  {
    callbacks := map[];
    var names := p.variables.Keys;
    while names != {}
      invariant names <= p.variables.Keys
      invariant callbacks.Keys == p.variables.Keys - names
      invariant forall x :: x in callbacks ==> callbacks[x] == p.variables[x]
      decreases names
    {
      var name :| name in names;
      callbacks, names := callbacks[name := p.variables[name]], names - {name};
    }
  }

  // Fail and Ignore differ exactly when match or rules raised an error.
  lemma FailurePolicyMatters(p: CompiledPolicy, q: Request)
    ensures OutcomeOf(p.(failurePolicy := FAIL), q) == OutcomeOf(p.(failurePolicy := IGNORE), q)
      <==> !RunPolicy(p, q).Failed?
  {
    assert RunPolicy(p.(failurePolicy := FAIL), q) == RunPolicy(p, q) == RunPolicy(p.(failurePolicy := IGNORE), q);
  }
}
