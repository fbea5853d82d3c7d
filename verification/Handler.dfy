/** The HTTP handler (pkg/httpauth/handlers.go): the first policy in the provider's order that
    responds or errors answers the request. Headers are written in map order. */
module Handler {
  import opened Cel
  import opened Options
  import opened Compiler
  import opened Engine
  import opened Order

  datatype Try<T> = Ok(value: T) | Error(msg: string)

  // NoDecision: the handler returns without writing anything. Aborted: Go's stack overflows,
  // which ends the process.
  datatype Answer = NoDecision | Written(resp: Resp) | InternalError(cause: Cause) | Aborted

  function AnswerOf(o: Outcome): Answer {
    match o
    case Abstain => NoDecision
    case Respond(resp) => Written(resp)
    case Reject(cause) => InternalError(cause)
    case Crash => Aborted
  }

  // The answer of a list of policies: the first one that does not abstain.
  ghost function Decide(pols: seq<CompiledPolicy>, q: Request): Answer {
    if pols == [] then NoDecision
    else if OutcomeOf(pols[0], q) == Abstain then Decide(pols[1..], q)
    else AnswerOf(OutcomeOf(pols[0], q))
  }

  // The answer case by case: the first policy that does not abstain has its response written as it
  // is, its errors reported as they are, or takes the process down; if there is none, nothing is
  // written.
  ghost predicate IsAnswer(pols: seq<CompiledPolicy>, q: Request, a: Answer) {
    && (forall i :: IsFirst(pols, q, i) ==>
        match OutcomeOf(pols[i], q)
        case Respond(resp) => a == Written(resp)
        case Reject(cause) => a == InternalError(cause)
        case Crash => a == Aborted
        case Abstain => true)
    && ((forall i :: 0 <= i < |pols| ==> OutcomeOf(pols[i], q) == Abstain) ==> a == NoDecision)
  }

  ghost predicate IsFirst(pols: seq<CompiledPolicy>, q: Request, i: int) {
    0 <= i < |pols| && OutcomeOf(pols[i], q) != Abstain && forall k :: 0 <= k < i ==> OutcomeOf(pols[k], q) == Abstain
  }

  lemma {:induction false} AnswerIsFirst(pols: seq<CompiledPolicy>, q: Request)
    ensures IsAnswer(pols, q, Decide(pols, q))
    decreases |pols|
  {
    hide OutcomeOf;
    if pols != [] && OutcomeOf(pols[0], q) == Abstain {
      AnswerIsFirst(pols[1..], q);
      forall i | IsFirst(pols, q, i) ensures IsFirst(pols[1..], q, i - 1) && pols[1..][i - 1] == pols[i] {
        assert forall k :: 0 <= k < i - 1 ==> pols[1..][k] == pols[k + 1];
      }
    } else if pols != [] {
      assert forall i :: IsFirst(pols, q, i) ==> i == 0;
    }
  }

  datatype RequestFunc = RequestFunc(policy: CompiledPolicy, request: Request)

  // nested: the error of reading the nested request, when one is expected and unreadable.
  method Handle(nested: Option<string>, provided: Try<seq<CompiledPolicy>>, body: Try<Request>) returns (a: Answer)
    ensures nested.Some? ==> a == InternalError(Errors([nested.value]))
    ensures nested.None? && provided.Error? ==> a == InternalError(Errors([provided.msg]))
    ensures nested.None? && provided.Ok? && body.Error? ==> a == InternalError(Errors([body.msg]))
    ensures nested.None? && provided.Ok? && body.Ok? ==> a == Decide(provided.value, body.value)
    ensures nested.None? && provided.Ok? && body.Ok? ==> IsAnswer(provided.value, body.value, a)
  {
    if nested.Some? { return InternalError(Errors([nested.value])); }
    if provided.Error? { return InternalError(Errors([provided.msg])); }
    if body.Error? { return InternalError(Errors([body.msg])); }
    var pols, q := provided.value, body.value;
    var ruleFuncs: seq<RequestFunc> := [];
    for i := 0 to |pols|
      invariant |ruleFuncs| == i && forall j :: 0 <= j < i ==> ruleFuncs[j] == RequestFunc(pols[j], q)
    {
      ruleFuncs := ruleFuncs + [RequestFunc(pols[i], q)];
    }
    for i := 0 to |ruleFuncs|
      invariant Decide(pols, q) == Decide(pols[i..], q)
    {
      var outcome := ForHTTP(ruleFuncs[i].policy, ruleFuncs[i].request);
      assert pols[i..][0] == pols[i] && pols[i..][1..] == pols[i + 1..];
      match outcome {
        case Reject(cause) =>
          AnswerIsFirst(pols, q);
          return InternalError(cause);
        case Respond(resp) =>
          AnswerIsFirst(pols, q);
          return Written(resp);
        case Crash =>
          AnswerIsFirst(pols, q);
          return Aborted;
        case Abstain =>
      }
    }
    a := NoDecision;
    AnswerIsFirst(pols, q);
  }

  lemma {:induction false} DecideAppend(a: seq<CompiledPolicy>, b: seq<CompiledPolicy>, q: Request)
    ensures Decide(a + b, q) == if Decide(a, q) != NoDecision then Decide(a, q) else Decide(b, q)
    decreases |a|
  {
    hide OutcomeOf;
    if a == [] {
      assert a + b == b;
    } else {
      assert (a + b)[1..] == a[1..] + b;
      DecideAppend(a[1..], b, q);
    }
  }

  // ---- Order stability -----------------------------------------------------------------

  ghost function Deciders(m: PolicyMap, q: Request): set<string> {
    set k | k in m && OutcomeOf(m[k], q) != Abstain
  }

  // The decision without any sorting: the least name among the policies that decide.
  ghost function LeastDecides(m: PolicyMap, q: Request): Answer {
    if Deciders(m, q) == {} then NoDecision else AnswerOf(OutcomeOf(m[Least(Deciders(m, q))], q))
  }

  lemma {:induction false} LeastNameDecides(m: PolicyMap, q: Request)
    ensures Decide(View(m), q) == LeastDecides(m, q)
    decreases |m|
  {
    hide OutcomeOf;
    if m == map[] {
      assert Deciders(m, q) == {};
    } else {
      var k := Least(m.Keys);
      var rest := m - {k};
      assert rest.Keys == m.Keys - {k};
      assert View(m) == [m[k]] + View(rest);
      LeastNameDecides(rest, q);
      if OutcomeOf(m[k], q) == Abstain {
        assert Deciders(rest, q) == Deciders(m, q);
      } else {
        assert IsLeast(k, Deciders(m, q));
        LeastUnique(k, Deciders(m, q));
      }
    }
  }

  lemma LeastAfterAdding(before: set<string>, n: string)
    requires before != {} && n !in before
    ensures Least(before + {n}) == if forall k :: k in before ==> Less(n, k) then n else Least(before)
  {
    if forall k :: k in before ==> Less(n, k) {
      LeastUnique(n, before + {n});
    } else {
      var k :| k in before && !Less(n, k);
      var d := Least(before);
      LessTotal(n, k);
      if d != k { LessTransitive(d, k, n); }
      LeastUnique(d, before + {n});
    }
  }

  // Adding a policy under a new name changes the answer exactly when it decides the request
  // and its name comes before every name that decided so far; then it gives the answer.
  lemma AddingPolicy(m: PolicyMap, n: string, p: CompiledPolicy, q: Request)
    requires n !in m
    ensures Decide(View(m[n := p]), q) ==
      if OutcomeOf(p, q) != Abstain && forall k :: k in Deciders(m, q) ==> Less(n, k)
      then AnswerOf(OutcomeOf(p, q)) else Decide(View(m), q)
  {
    hide OutcomeOf;
    LeastNameDecides(m, q);
    LeastNameDecides(m[n := p], q);
    hide View, Decide;
    var before, after := Deciders(m, q), Deciders(m[n := p], q);
    if OutcomeOf(p, q) == Abstain {
      assert after == before;
    } else {
      assert after == before + {n};
      if before == {} {
        LeastUnique(n, after);
      } else {
        LeastAfterAdding(before, n);
      }
    }
  }

  // Two maps answer a request alike exactly when neither decides it, or the least deciding names
  // have the same outcome.
  lemma AnswersAgreeIff(m: PolicyMap, k: PolicyMap, q: Request)
    ensures var a, b := Deciders(m, q), Deciders(k, q);
      Decide(View(m), q) == Decide(View(k), q) <==>
        (a == {} && b == {}) || (a != {} && b != {} && OutcomeOf(m[Least(a)], q) == OutcomeOf(k[Least(b)], q))
  {
    hide OutcomeOf, View, Decide;
    LeastNameDecides(m, q);
    LeastNameDecides(k, q);
  }

  // Removing policies changes the answer exactly when they include the one that answers, unless
  // the next one in line has the very same outcome.
  lemma RemovingPolicies(m: PolicyMap, gone: set<string>, q: Request)
    ensures var all := Deciders(m, q);
      var left := all - gone;
      Decide(View(m - gone), q) == Decide(View(m), q) <==>
        || all == {} || Least(all) !in gone
        || (left != {} && OutcomeOf(m[Least(left)], q) == OutcomeOf(m[Least(all)], q))
  {
    hide OutcomeOf, View, Decide;
    AnswersAgreeIff(m - gone, m, q);
    var all := Deciders(m, q);
    var left := all - gone;
    assert Deciders(m - gone, q) == left;
    if all != {} && Least(all) !in gone {
      assert IsLeast(Least(all), left);
      LeastUnique(Least(all), left);
    }
  }

  // A policy that decides and whose name no other decider's comes before answers the request.
  lemma FirstNameAnswers(m: PolicyMap, n: string, q: Request)
    requires n in m && OutcomeOf(m[n], q) != Abstain
    requires forall k :: k in m && Before(k, n) ==> OutcomeOf(m[k], q) == Abstain
    ensures OutcomeOf(m[n], q).Respond? ==> Decide(View(m), q) == Written(OutcomeOf(m[n], q).resp)
    ensures OutcomeOf(m[n], q).Reject? ==> Decide(View(m), q) == InternalError(OutcomeOf(m[n], q).cause)
  {
    hide OutcomeOf, View, Decide, Less, Before;
    LeastNameDecides(m, q);
    var ds := Deciders(m, q);
    forall k | k in ds && k != n ensures Less(n, k) {
      LessTotal(n, k);
      LessIsBefore(k, n);
    }
    assert IsLeast(n, ds);
    LeastUnique(n, ds);
  }
}
