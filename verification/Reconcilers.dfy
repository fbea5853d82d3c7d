/** The two reconcilers: the standalone one compiles policies itself
    (pkg/engine/vpol/provider/standalone.go), the mesh one stores them with the sender and
    broadcasts them (pkg/engine/vpol/provider/mesh.go). Policies are cluster-scoped, so a
    request's string form is "/" followed by its name. */
module Reconcilers {
  import opened Options
  import opened Policies
  import opened Compiler
  import opened Order
  import opened Listener
  import opened Sender

  // What the API server answers when the policy is fetched.
  datatype Fetch = NotFound | Unavailable | Found(policy: Policy)

  datatype Event = Event(name: string, fetched: Fetch)

  function KeyOf(e: Event): string { "/" + e.name }

  ghost function StandaloneStep(m: PolicyMap, e: Event): PolicyMap {
    match e.fetched
    case NotFound => m - {KeyOf(e)}
    case Unavailable => m
    case Found(p) => if Accepted(p) then m[KeyOf(e) := Program(p)] else m
  }

  class StandaloneReconciler {
    var policies: PolicyMap
    var sortPolicies: Closure<CompiledPolicy>

    ghost predicate Valid()
      reads this
    {
      !sortPolicies.Unset? && (sortPolicies.Forced? ==> sortPolicies.list == View(policies))
    }

    constructor ()
      ensures Valid() && policies == map[]
    {
      policies, sortPolicies := map[], Forced([]);
    }

    // retry: the fetch failed and the request is queued again. A policy that does not compile
    // leaves the version before it in place.
    method Reconcile(e: Event) returns (retry: bool)
      requires Valid()
      modifies this
      ensures Valid() && policies == StandaloneStep(old(policies), e) && (retry <==> e.fetched.Unavailable?)
      ensures e.fetched.NotFound? ==> policies == old(policies) - {"/" + e.name}
      ensures e.fetched.Unavailable? ==> policies == old(policies)
      ensures e.fetched.Found? ==>
        var p := e.fetched.policy;
        if exists envs :: WellTyped(p, envs) then
          && policies.Keys == old(policies).Keys + {"/" + e.name} && CompiledAs(p, policies["/" + e.name])
          && forall k :: k in old(policies) && k != "/" + e.name ==> policies[k] == old(policies)[k]
        else policies == old(policies)
    {
      hide Accepted, Program, WellTyped, CompiledAs, View;
      retry := false;
      match e.fetched {
        case NotFound =>
          policies := policies - {KeyOf(e)};
          sortPolicies := Unforced;
        case Unavailable => retry := true;
        case Found(p) =>
          var compiled := Compile(p);
          if compiled.Compiled? {
            policies := policies[KeyOf(e) := compiled.policy];
            sortPolicies := Unforced;
          }
      }
    }

    method CompiledPolicies() returns (out: seq<CompiledPolicy>)
      requires Valid()
      modifies this
      ensures Valid() && policies == old(policies) && out == View(policies)
    {
      if sortPolicies.Unforced? {
        var list := MapToSortedSlice(policies);
        sortPolicies := Forced(list);
      }
      out := sortPolicies.list;
    }
  }

  // ---- The mesh reconciler -------------------------------------------------------------

  // The message an event is broadcast as, if any: a policy in another mode is ignored.
  ghost function Broadcast(e: Event): Option<Message> {
    match e.fetched
    case NotFound => Some(Deletion(e.name))
    case Unavailable => None
    case Found(p) => if p.mode == MODE_HTTP then Some(Sent(p)) else None
  }

  ghost function MeshStep(m: map<string, Message>, e: Event): map<string, Message> {
    match e.fetched
    case NotFound => m - {e.name}
    case Unavailable => m
    case Found(p) => if p.mode == MODE_HTTP then m[Sent(p).name := Sent(p)] else m
  }

  class MeshReconciler {
    const polSender: PolicySender

    constructor (sender: PolicySender)
      ensures polSender == sender
    {
      polSender := sender;
    }

    // sent: what is handed to SendPolicy.
    method Reconcile(e: Event) returns (retry: bool, sent: Option<Message>)
      requires polSender.Valid()
      modifies polSender`policies, polSender`sortPolicies
      ensures polSender.Valid() && polSender.policies == MeshStep(old(polSender.policies), e)
      ensures (retry <==> e.fetched.Unavailable?)
      ensures sent.Some? <==> Broadcast(e).Some?
      ensures sent.Some? ==> sent.value == Broadcast(e).value
      ensures e.fetched.NotFound? ==>
        && polSender.policies == old(polSender.policies) - {e.name}
        && sent.Some? && sent.value.delete && sent.value.name == e.name
      ensures e.fetched.Unavailable? || (e.fetched.Found? && e.fetched.policy.mode != "HTTP") ==>
        polSender.policies == old(polSender.policies) && sent == None
      ensures e.fetched.Found? && e.fetched.policy.mode == "HTTP" ==>
        && sent.Some? && IsSent(e.fetched.policy, sent.value)
        && polSender.policies == old(polSender.policies)[e.fetched.policy.name := sent.value]
    {
      retry, sent := false, None;
      match e.fetched {
        case NotFound =>
          polSender.DeletePolicy(e.name);
          sent := Some(Deletion(e.name));
        case Unavailable => retry := true;
        case Found(p) =>
          if p.mode != "HTTP" { return; }
          var q := ToProto(p);
          polSender.StorePolicy(q);
          sent := Some(q);
      }
    }
  }
}
