/** The ValidatingPolicy resource, its wire form, and the conversions between them
    (apis/v1alpha1/validating_policy.go). Expressions are kept as the trees cel-go parses
    them to; a text that does not parse behaves like a tree that does not type check. */
module Policies {
  import opened Cel
  import opened Options

  datatype Validation = Validation(expression: Expr, message: string, reason: Option<string>, messageExpression: string)
  datatype Named = Named(name: string, expression: Expr)  // a variable or a match condition

  datatype Policy = Policy(
    name: string,
    mode: string,
    failurePolicy: Option<string>,
    matchConditions: seq<Named>,
    variables: seq<Named>,
    validations: seq<Validation>)

  const FAIL := "Fail"
  const IGNORE := "Ignore"
  const MODE_HTTP := "HTTP"

  datatype WireValidation = WireValidation(
    expression: Expr, message: Option<string>, reason: Option<string>, messageExpression: Option<string>)

  // The message a control plane streams; a deletion carries the name only.
  datatype Wire = Wire(
    name: string,
    delete: bool,
    failurePolicy: Option<string>,
    matchConditions: seq<Named>,
    variables: seq<Named>,
    validations: seq<WireValidation>,
    validationActions: string)

  function Deletion(name: string): Wire { Wire(name, true, None, [], [], [], "") }

  // FromProto dereferences the failure policy and every message.
  predicate Complete(q: Wire) {
    q.failurePolicy.Some? && forall v :: v in q.validations ==> v.message.Some?
  }

  function SentValidation(v: Validation): WireValidation {
    WireValidation(v.expression, Some(v.message), v.reason, None)
  }

  function ReceivedValidation(v: WireValidation): Validation
    requires v.message.Some?
  {
    Validation(v.expression, v.message.value, v.reason, "")
  }

  // The failure policy that travels.
  function WireFailurePolicy(p: Policy): string {
    if p.failurePolicy.Some? then p.failurePolicy.value else IGNORE
  }

  // What ToProto sends: everything but the mode and the message expressions, and an unset
  // failure policy as "Ignore".
  ghost function Sent(p: Policy): (q: Wire)
    ensures Complete(q) && !q.delete && q.name == p.name
  {
    Wire(p.name, false, Some(WireFailurePolicy(p)),
         p.matchConditions, p.variables,
         seq(|p.validations|, i requires 0 <= i < |p.validations| => SentValidation(p.validations[i])), "")
  }

  ghost function Received(q: Wire): Policy
    requires Complete(q)
  {
    Policy(q.name, "", q.failurePolicy, q.matchConditions, q.variables,
           seq(|q.validations|, i requires 0 <= i < |q.validations| => ReceivedValidation(q.validations[i])))
  }

  // The message field by field.
  ghost predicate IsSent(p: Policy, q: Wire) {
    && q.name == p.name && !q.delete && q.validationActions == ""
    && q.failurePolicy == Some(if p.failurePolicy.Some? then p.failurePolicy.value else "Ignore")
    && q.matchConditions == p.matchConditions && q.variables == p.variables
    && |q.validations| == |p.validations| && forall i :: 0 <= i < |p.validations| ==>
      var v, w := p.validations[i], q.validations[i];
      && w.expression == v.expression && w.message == Some(v.message) && w.reason == v.reason
      && w.messageExpression == None
  }

  // The resource field by field.
  ghost predicate IsReceived(q: Wire, p: Policy) {
    && p.name == q.name && p.mode == "" && p.failurePolicy == q.failurePolicy
    && p.matchConditions == q.matchConditions && p.variables == q.variables
    && |p.validations| == |q.validations| && forall i :: 0 <= i < |q.validations| ==>
      var v, w := p.validations[i], q.validations[i];
      v.expression == w.expression && Some(v.message) == w.message && v.reason == w.reason && v.messageExpression == ""
  }

  method ToProto(p: Policy) returns (q: Wire)
    ensures q == Sent(p) && IsSent(p, q)
  {
    var validations: seq<WireValidation> := [];
    for i := 0 to |p.validations|
      invariant validations == Sent(p).validations[..i]
    {
      var v := p.validations[i];
      validations := validations + [WireValidation(v.expression, Some(v.message), v.reason, None)];
    }
    var variables := CopyNamed(p.variables);
    var matchConds := CopyNamed(p.matchConditions);
    var fp;
    if p.failurePolicy.Some? { fp := p.failurePolicy.value; } else { fp := "Ignore"; }
    q := Wire(p.name, false, Some(fp), matchConds, variables, validations, "");
  }

  method FromProto(q: Wire) returns (p: Policy)
    requires Complete(q)
    ensures p == Received(q) && IsReceived(q, p)
  {
    var validations: seq<Validation> := [];
    for i := 0 to |q.validations|
      invariant validations == Received(q).validations[..i]
    {
      var v := q.validations[i];
      validations := validations + [Validation(v.expression, v.message.value, v.reason, "")];
    }
    var variables := CopyNamed(q.variables);
    var matchConds := CopyNamed(q.matchConditions);
    p := Policy(q.name, "", Some(q.failurePolicy.value), matchConds, variables, validations);
  }

  // The append loops over variables and match conditions, the same in both directions.
  method CopyNamed(xs: seq<Named>) returns (out: seq<Named>)
    ensures out == xs
  {
    out := [];
    for i := 0 to |xs|
      invariant out == xs[..i]
    {
      out := out + [Named(xs[i].name, xs[i].expression)];
    }
  }

  // A policy arrives unchanged exactly when it carries nothing the wire form has no room
  // for: a mode, a message expression, or an unset failure policy.
  lemma PolicyRoundTrip(p: Policy)
    ensures var r := Received(Sent(p));
      && r.name == p.name && r.matchConditions == p.matchConditions && r.variables == p.variables
      && r.failurePolicy == Some(WireFailurePolicy(p))
      && |r.validations| == |p.validations|
      && (forall i :: 0 <= i < |p.validations| ==> r.validations[i] == p.validations[i].(messageExpression := ""))
    ensures Received(Sent(p)) == p <==>
      && p.mode == "" && p.failurePolicy.Some?
      && forall i :: 0 <= i < |p.validations| ==> p.validations[i].messageExpression == ""
  {
    var r := Received(Sent(p));
    assert forall i :: 0 <= i < |p.validations| ==> r.validations[i] == p.validations[i].(messageExpression := "");
    if forall i :: 0 <= i < |p.validations| ==> p.validations[i].messageExpression == "" {
      assert r.validations == p.validations;
    }
  }

  lemma WireRoundTrip(q: Wire)
    requires Complete(q)
    ensures Sent(Received(q)) == q <==>
      && !q.delete && q.validationActions == ""
      && forall i :: 0 <= i < |q.validations| ==> q.validations[i].messageExpression == None
  {
    var r := Sent(Received(q));
    assert forall i :: 0 <= i < |q.validations| ==> r.validations[i] == q.validations[i].(messageExpression := None);
    if forall i :: 0 <= i < |q.validations| ==> q.validations[i].messageExpression == None {
      assert r.validations == q.validations;
    }
  }
}
