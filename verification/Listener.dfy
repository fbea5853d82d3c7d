/** The listener's policy map (pkg/stream/listener/listener.go): what one message does to it,
    and why the order in which the messages' goroutines run matters only per name. The
    closure's behaviour under interleaving is in Cache. */
module Listener {
  import opened Options
  import opened Policies
  import opened Compiler
  import opened Order

  // FromProto dereferences pointers of every message that is not a deletion.
  type Message = q: Wire | q.delete || Complete(q) witness Deletion("")

  ghost function CompiledMessage(q: Message): Option<CompiledPolicy> {
    if q.delete then None else CompiledForm(Received(q))
  }

  ghost function ApplyMessage(m: PolicyMap, q: Message): PolicyMap {
    if q.delete then m - {q.name}
    else
      var c := CompiledMessage(q);
      if c.Some? then m[q.name := c.value] else m
  }

  ghost function ApplyAll(m: PolicyMap, qs: seq<Message>): PolicyMap
    decreases |qs|
  {
    if qs == [] then m else ApplyAll(ApplyMessage(m, qs[0]), qs[1..])
  }

  // The sorted snapshot behind a OnceValue: not computed yet, or computed.
  datatype Closure<V> = Unset | Unforced | Forced(list: seq<V>)

  class PolicyListener {
    var policies: PolicyMap
    var sortPolicies: Closure<CompiledPolicy>

    ghost predicate Valid()
      reads this
    {
      !sortPolicies.Unset? && (sortPolicies.Forced? ==> sortPolicies.list == View(policies))
    }

    constructor ()
      ensures Valid() && policies == map[]
    {
      policies, sortPolicies := map[], Forced([]);
    }

    method ProcessPolicy(q: Message)
      requires Valid()
      modifies this
      ensures Valid() && policies == ApplyMessage(old(policies), q)
      ensures q.delete ==> policies == old(policies) - {q.name}
      ensures !q.delete ==>
        if exists envs :: WellTyped(Received(q), envs) then
          && policies.Keys == old(policies).Keys + {q.name} && CompiledAs(Received(q), policies[q.name])
          && forall k :: k in old(policies) && k != q.name ==> policies[k] == old(policies)[k]
        else policies == old(policies)
    {
      hide Accepted, Program, WellTyped, CompiledAs, View, Received;
      if q.delete {
        policies := policies - {q.name};
        sortPolicies := Unforced;
        return;
      }
      var vpol := FromProto(q);
      var compiled := Compile(vpol);
      if compiled.Rejected? { return; }
      policies := policies[q.name := compiled.policy];
      sortPolicies := Unforced;
    }

    method CompiledPolicies() returns (out: seq<CompiledPolicy>)
      requires Valid()
      modifies this
      ensures Valid() && policies == old(policies) && out == View(policies)
    {
      if sortPolicies.Unforced? {
        var list := MapToSortedSlice(policies);
        sortPolicies := Forced(list);
      }
      out := sortPolicies.list;
    }
  }

  // ---- Only the order of messages for one name matters ---------------------------------

  ghost function Lookup(m: PolicyMap, n: string): Option<CompiledPolicy> {
    if n in m then Some(m[n]) else None
  }

  // The messages for one name, in order.
  ghost function ForName(qs: seq<Message>, n: string): seq<Message> {
    if qs == [] then []
    else (if qs[0].name == n then [qs[0]] else []) + ForName(qs[1..], n)
  }

  // What is left of a name after its messages: the last store that compiled since the last
  // deletion, or else what was there if there was no deletion.
  ghost function LastWord(before: Option<CompiledPolicy>, qs: seq<Message>): Option<CompiledPolicy> {
    if qs == [] then before
    else
      var q := qs[|qs| - 1];
      if q.delete then None
      else if CompiledMessage(q).Some? then CompiledMessage(q)
      else LastWord(before, qs[..|qs| - 1])
  }

  lemma {:induction false} ApplyAppend(m: PolicyMap, a: seq<Message>, b: seq<Message>)
    ensures ApplyAll(m, a + b) == ApplyAll(ApplyAll(m, a), b)
    decreases |a|
  {
    hide ApplyMessage;
    if a == [] {
      assert a + b == b;
    } else {
      assert (a + b)[1..] == a[1..] + b;
      ApplyAppend(ApplyMessage(m, a[0]), a[1..], b);
    }
  }

  lemma {:induction false} ForNameAppend(a: seq<Message>, b: seq<Message>, n: string)
    ensures ForName(a + b, n) == ForName(a, n) + ForName(b, n)
    decreases |a|
  {
    if a == [] {
      assert a + b == b;
    } else {
      assert (a + b)[1..] == a[1..] + b;
      ForNameAppend(a[1..], b, n);
    }
  }

  // The map after any messages, name by name.
  lemma {:induction false} NameByName(m: PolicyMap, qs: seq<Message>, n: string)
    ensures Lookup(ApplyAll(m, qs), n) == LastWord(Lookup(m, n), ForName(qs, n))
    decreases |qs|
  {
    hide CompiledMessage;
    if qs != [] {
      var front, q := qs[..|qs| - 1], qs[|qs| - 1];
      assert qs == front + [q];
      NameByName(m, front, n);
      ApplyAppend(m, front, [q]);
      ForNameAppend(front, [q], n);
      assert ApplyAll(ApplyAll(m, front), [q]) == ApplyMessage(ApplyAll(m, front), q);
      if q.name == n {
        assert ForName([q], n) == [q];
        assert ForName(qs, n)[..|ForName(qs, n)| - 1] == ForName(front, n);
      } else {
        assert ForName([q], n) == [];
        assert ForName(qs, n) == ForName(front, n);
      }
    }
  }

  // Message i is a store that compiles, and nothing after it is a deletion or compiles.
  ghost predicate Decisive(qs: seq<Message>, i: nat) {
    && i < |qs| && !qs[i].delete && CompiledMessage(qs[i]).Some?
    && forall j :: i < j < |qs| ==> !qs[j].delete && CompiledMessage(qs[j]).None?
  }

  lemma {:induction false} LastWordIs(before: Option<CompiledPolicy>, qs: seq<Message>)
    ensures forall i: nat :: Decisive(qs, i) ==> LastWord(before, qs) == CompiledMessage(qs[i])
    ensures LastWord(before, qs).Some? <==>
      (exists i: nat :: Decisive(qs, i)) || (before.Some? && forall j :: 0 <= j < |qs| ==> !qs[j].delete)
    decreases |qs|
  {
    hide CompiledMessage;
    if qs != [] {
      var n := |qs| - 1;
      LastWordIs(before, qs[..n]);
      if !qs[n].delete && CompiledMessage(qs[n]).None? {
        forall i: nat ensures Decisive(qs, i) <==> Decisive(qs[..n], i) {}
      } else if !qs[n].delete {
        assert Decisive(qs, n);
      }
    }
  }

  // Two interleavings that agree on every name's own messages give the same map.
  lemma DeliveryOrderIrrelevantAcrossNames(m: PolicyMap, a: seq<Message>, b: seq<Message>)
    requires forall n :: ForName(a, n) == ForName(b, n)
    ensures ApplyAll(m, a) == ApplyAll(m, b)
  {
    hide ApplyAll, CompiledMessage;
    var x, y := ApplyAll(m, a), ApplyAll(m, b);
    forall n ensures Lookup(x, n) == Lookup(y, n) {
      NameByName(m, a, n);
      NameByName(m, b, n);
    }
    SameLookups(x, y);
  }

  lemma SameLookups(x: PolicyMap, y: PolicyMap)
    requires forall n :: Lookup(x, n) == Lookup(y, n)
    ensures x == y
  {
    assert forall n :: n in x <==> Lookup(x, n).Some?;
    assert forall n :: n in y <==> Lookup(y, n).Some?;
    assert x.Keys == y.Keys;
    assert forall n :: n in x ==> x[n] == Lookup(x, n).value;
  }
}
