/** Messages for one name that can be applied in different orders. The listener starts one
    goroutine per message (pkg/stream/listener/listener.go:134) and the reconciler one per
    broadcast (pkg/engine/vpol/provider/mesh.go:32,46), so nothing orders two of them. What a
    sequence of messages does to a name is decided by its last message that acts: a deletion, or
    a store that compiles. */
module Races {
  import opened Cel
  import opened Options
  import opened Policies
  import opened Compiler
  import opened Listener

  ghost predicate Acts(q: Message) { q.delete || CompiledMessage(q).Some? }

  // What the last acting message for n leaves under n, if there is one.
  ghost function Final(qs: seq<Message>, n: string): Option<Option<CompiledPolicy>> {
    if qs == [] then None
    else
      var q := qs[|qs| - 1];
      if q.name == n && Acts(q) then Some(CompiledMessage(q)) else Final(qs[..|qs| - 1], n)
  }

  ghost function LeftBy(before: Option<CompiledPolicy>, f: Option<Option<CompiledPolicy>>): Option<CompiledPolicy> {
    if f.Some? then f.value else before
  }

  ghost predicate ActsOn(q: Message, n: string) { q.name == n && Acts(q) }

  lemma AppliedOne(m: PolicyMap, q: Message, n: string)
    ensures Lookup(ApplyMessage(m, q), n) == if ActsOn(q, n) then CompiledMessage(q) else Lookup(m, n)
  {
    if q.delete { assert CompiledMessage(q) == None; }
    hide CompiledMessage;
  }

  lemma {:induction false} FinalDecides(m: PolicyMap, qs: seq<Message>, n: string)
    ensures Lookup(ApplyAll(m, qs), n) == LeftBy(Lookup(m, n), Final(qs, n))
    decreases |qs|
  {
    hide CompiledMessage;
    if qs != [] {
      var front, q := qs[..|qs| - 1], qs[|qs| - 1];
      assert qs == front + [q] && [q][1..] == [];
      FinalDecides(m, front, n);
      ApplyAppend(m, front, [q]);
      assert ApplyAll(ApplyAll(m, front), [q]) == ApplyMessage(ApplyAll(m, front), q);
      AppliedOne(ApplyAll(m, front), q, n);
    }
  }

  lemma {:induction false} FinalAppend(a: seq<Message>, b: seq<Message>, n: string)
    ensures Final(a + b, n) == if Final(b, n).Some? then Final(b, n) else Final(a, n)
    decreases |b|
  {
    hide CompiledMessage;
    if b == [] {
      assert a + b == a;
    } else {
      assert (a + b)[..|a + b| - 1] == a + b[..|b| - 1];
      FinalAppend(a, b[..|b| - 1], n);
    }
  }

  lemma {:induction false} FinalIsSomeMessage(qs: seq<Message>, n: string)
    ensures Final(qs, n).Some? <==> exists q :: q in qs && ActsOn(q, n)
    ensures Final(qs, n).Some? ==> exists q :: q in qs && ActsOn(q, n) && Final(qs, n) == Some(CompiledMessage(q))
    decreases |qs|
  {
    hide CompiledMessage;
    if qs != [] {
      var front, last := qs[..|qs| - 1], qs[|qs| - 1];
      FinalIsSomeMessage(front, n);
      assert last in qs && forall q :: q in qs <==> q in front || q == last;
      if ActsOn(last, n) { assert Final(qs, n) == Some(CompiledMessage(last)); }
    }
  }

  // ---- Sequences with the same effect --------------------------------------------------

  lemma SameMapIff(m: PolicyMap, k: PolicyMap, a: seq<Message>, b: seq<Message>)
    ensures ApplyAll(m, a) == ApplyAll(k, b) <==>
      forall n :: LeftBy(Lookup(m, n), Final(a, n)) == LeftBy(Lookup(k, n), Final(b, n))
  {
    hide ApplyAll, Final, LeftBy;
    forall n
      ensures Lookup(ApplyAll(m, a), n) == LeftBy(Lookup(m, n), Final(a, n))
      ensures Lookup(ApplyAll(k, b), n) == LeftBy(Lookup(k, n), Final(b, n))
    {
      FinalDecides(m, a, n);
      FinalDecides(k, b, n);
    }
    if forall n :: Lookup(ApplyAll(m, a), n) == Lookup(ApplyAll(k, b), n) {
      SameLookups(ApplyAll(m, a), ApplyAll(k, b));
    }
  }

  // Two sequences change every map alike exactly when they leave the same under every name.
  lemma SameEffectIff(a: seq<Message>, b: seq<Message>)
    ensures (forall m :: ApplyAll(m, a) == ApplyAll(m, b)) <==> forall n :: Final(a, n) == Final(b, n)
  {
    hide ApplyAll, Final;
    if forall n :: Final(a, n) == Final(b, n) {
      forall m ensures ApplyAll(m, a) == ApplyAll(m, b) { SameMapIff(m, m, a, b); }
    } else {
      var n :| Final(a, n) != Final(b, n);
      var some: PolicyMap := map[n := CompiledPolicy("", [], map[], [])];
      SameMapIff(map[], map[], a, b);
      SameMapIff(some, some, a, b);
      assert Lookup(map[], n) != Lookup(some, n);
    }
  }

  // ---- Races ---------------------------------------------------------------------------

  // Two messages whose order shows: they act on one name and leave different things.
  ghost predicate Racing(a: Message, b: Message) {
    a.name == b.name && Acts(a) && Acts(b) && CompiledMessage(a) != CompiledMessage(b)
  }

  ghost predicate NoRace(qs: seq<Message>) { forall a, b :: a in qs && b in qs ==> !Racing(a, b) }

  ghost predicate Reordered(ps: seq<Message>, qs: seq<Message>) { multiset(ps) == multiset(qs) }

  function Without(qs: seq<Message>, i: nat): seq<Message>
    requires i < |qs|
  {
    qs[..i] + qs[i + 1..]
  }

  lemma WithoutOne(qs: seq<Message>, i: nat)
    requires i < |qs|
    ensures multiset(Without(qs, i)) + multiset{qs[i]} == multiset(qs)
  {
    assert qs == qs[..i] + ([qs[i]] + qs[i + 1..]);
  }

  // The message at i moved to the end has the last word.
  lemma MovedLast(m: PolicyMap, qs: seq<Message>, i: nat)
    requires i < |qs| && Acts(qs[i])
    ensures Reordered(Without(qs, i) + [qs[i]], qs)
    ensures Lookup(ApplyAll(m, Without(qs, i) + [qs[i]]), qs[i].name) == CompiledMessage(qs[i])
  {
    WithoutOne(qs, i);
    FinalDecides(m, Without(qs, i) + [qs[i]], qs[i].name);
  }

  lemma NoRaceSettles(ps: seq<Message>, qs: seq<Message>, n: string)
    requires NoRace(qs) && forall q :: q in ps <==> q in qs
    ensures Final(ps, n) == Final(qs, n)
  {
    hide CompiledMessage, Final;
    FinalIsSomeMessage(ps, n);
    FinalIsSomeMessage(qs, n);
    if Final(ps, n).Some? && Final(qs, n).Some? {
      var a :| a in ps && ActsOn(a, n) && Final(ps, n) == Some(CompiledMessage(a));
      var b :| b in qs && ActsOn(b, n) && Final(qs, n) == Some(CompiledMessage(b));
      assert !Racing(a, b);
    }
  }

  // Whatever the map, every order of the messages leaves the same exactly when no two race.
  lemma OrderIrrelevantIff(m: PolicyMap, qs: seq<Message>)
    ensures (forall ps :: Reordered(ps, qs) ==> ApplyAll(m, ps) == ApplyAll(m, qs)) <==> NoRace(qs)
  {
    hide ApplyAll, CompiledMessage;
    if NoRace(qs) {
      forall ps | Reordered(ps, qs) ensures ApplyAll(m, ps) == ApplyAll(m, qs) {
        assert forall q :: q in ps <==> q in multiset(ps);
        assert forall q :: q in qs <==> q in multiset(qs);
        forall n ensures Final(ps, n) == Final(qs, n) { NoRaceSettles(ps, qs, n); }
        SameMapIff(m, m, ps, qs);
      }
    } else {
      var a, b :| a in qs && b in qs && Racing(a, b);
      var i :| 0 <= i < |qs| && qs[i] == a;
      var j :| 0 <= j < |qs| && qs[j] == b;
      MovedLast(m, qs, i);
      MovedLast(m, qs, j);
    }
  }

  // ---- One delivery, loss or duplication -----------------------------------------------

  // Taking out a message that does not act, or looking at another name, changes nothing; taking
  // out the only one that acts leaves nothing.
  lemma FinalWithout(qs: seq<Message>, i: nat, n: string)
    requires i < |qs|
    ensures !ActsOn(qs[i], n) ==> Final(Without(qs, i), n) == Final(qs, n)
    ensures ActsOn(qs[i], n) && Final(Without(qs, i), n).None? ==> Final(qs, n) == Some(CompiledMessage(qs[i]))
    ensures ActsOn(qs[i], n) ==> Final(qs, n).Some?
  {
    hide CompiledMessage;
    var a, q, b := qs[..i], qs[i], qs[i + 1..];
    assert qs == a + ([q] + b);
    assert Final([q], n) == if ActsOn(q, n) then Some(CompiledMessage(q)) else Final([q][..0], n);
    hide Final;
    FinalAppend(a, [q] + b, n);
    FinalAppend([q], b, n);
    FinalAppend(a, b, n);
    assert Final([q][..0], n) == None by { FinalIsSomeMessage([q][..0], n); }
  }

  // Applying message i before the others: harmless unless it acts and, without it, another one
  // has the last word on its name and a different one.
  ghost predicate MayOvertake(qs: seq<Message>, i: nat)
    requires i < |qs|
  {
    var rest := Final(Without(qs, i), qs[i].name);
    !Acts(qs[i]) || rest.None? || rest == Final(qs, qs[i].name)
  }

  lemma OvertakesIff(m: PolicyMap, qs: seq<Message>, i: nat)
    requires i < |qs|
    ensures ApplyAll(ApplyMessage(m, qs[i]), Without(qs, i)) == ApplyAll(m, qs) <==> MayOvertake(qs, i)
  {
    hide CompiledMessage, Final, ApplyAll;
    var k := ApplyMessage(m, qs[i]);
    SameMapIff(k, m, Without(qs, i), qs);
    forall n ensures
      LeftBy(Lookup(k, n), Final(Without(qs, i), n)) == LeftBy(Lookup(m, n), Final(qs, n)) <==>
        n != qs[i].name || MayOvertake(qs, i)
    {
      FinalWithout(qs, i, n);
      AppliedOne(m, qs[i], n);
    }
  }

  // Losing message i.
  ghost predicate MayLose(m: PolicyMap, qs: seq<Message>, i: nat)
    requires i < |qs|
  {
    var n := qs[i].name;
    var rest := Final(Without(qs, i), n);
    !Acts(qs[i]) || rest == Final(qs, n) || (rest.None? && Lookup(m, n) == CompiledMessage(qs[i]))
  }

  lemma LosesIff(m: PolicyMap, qs: seq<Message>, i: nat)
    requires i < |qs|
    ensures ApplyAll(m, Without(qs, i)) == ApplyAll(m, qs) <==> MayLose(m, qs, i)
  {
    hide CompiledMessage, Final, ApplyAll;
    SameMapIff(m, m, Without(qs, i), qs);
    forall n ensures
      LeftBy(Lookup(m, n), Final(Without(qs, i), n)) == LeftBy(Lookup(m, n), Final(qs, n)) <==>
        n != qs[i].name || MayLose(m, qs, i)
    {
      FinalWithout(qs, i, n);
    }
  }

  // Repeating message i after the others.
  ghost predicate MayRepeat(qs: seq<Message>, i: nat)
    requires i < |qs|
  {
    !Acts(qs[i]) || Final(qs, qs[i].name) == Some(CompiledMessage(qs[i]))
  }

  lemma RepeatsIff(m: PolicyMap, qs: seq<Message>, i: nat)
    requires i < |qs|
    ensures ApplyAll(m, qs + [qs[i]]) == ApplyAll(m, qs) <==> MayRepeat(qs, i)
  {
    hide CompiledMessage, ApplyAll;
    SameMapIff(m, m, qs + [qs[i]], qs);
    forall n ensures
      LeftBy(Lookup(m, n), Final(qs + [qs[i]], n)) == LeftBy(Lookup(m, n), Final(qs, n)) <==>
        n != qs[i].name || MayRepeat(qs, i)
    {
      assert (qs + [qs[i]])[..|qs|] == qs;
      FinalWithout(qs, i, n);
    }
  }

  // Messages that come in order for each name, and messages that do not race, may overtake.
  lemma InOrderMayOvertake(qs: seq<Message>, i: nat)
    requires i < |qs| && forall j :: 0 <= j < i ==> qs[j].name != qs[i].name
    ensures MayOvertake(qs, i)
  {
    hide CompiledMessage, Final;
    var a, q, b, n := qs[..i], qs[i], qs[i + 1..], qs[i].name;
    assert qs == a + ([q] + b);
    FinalIsSomeMessage(a, n);
    FinalAppend(a, b, n);
    FinalAppend(a, [q] + b, n);
    FinalAppend([q], b, n);
  }

  lemma UnracedMayOvertake(qs: seq<Message>, i: nat)
    requires i < |qs| && NoRace(qs)
    ensures MayOvertake(qs, i)
  {
    hide CompiledMessage, Final;
    var n := qs[i].name;
    FinalIsSomeMessage(Without(qs, i), n);
    FinalIsSomeMessage(qs, n);
    if Acts(qs[i]) && Final(Without(qs, i), n).Some? {
      var a :| a in Without(qs, i) && ActsOn(a, n) && Final(Without(qs, i), n) == Some(CompiledMessage(a));
      assert a in qs && qs[i] in qs && ActsOn(qs[i], n);
      var b :| b in qs && ActsOn(b, n) && Final(qs, n) == Some(CompiledMessage(b));
      assert !Racing(a, b);
    }
  }

  // ---- A racing pair -------------------------------------------------------------------

  // Two versions of one policy: the first answers every request, the second none.
  const ALLOWS := Policy("p", MODE_HTTP, Some(FAIL), [], [], [Validation(NewResponse, "", None, "")])
  const ABSTAINS := Policy("p", MODE_HTTP, Some(FAIL), [], [], [Validation(NullLit, "", None, "")])

  lemma CompilesFrom(p: Policy)
    requires p == ALLOWS || p == ABSTAINS
    ensures CompiledMessage(Sent(p)).Some? && CompiledMessage(Sent(p)).value.rules == [p.validations[0].expression]
  {
    var r := Received(Sent(p));
    assert |r.validations| == 1 && r.validations[0].expression == p.validations[0].expression;
    assert RuleOk(r, r.validations[0]);
    assert Rules(r.validations) == [p.validations[0].expression];
  }

  // Stored one after the other and delivered in reverse, they leave the first in place, while
  // the control plane holds the second.
  lemma ReversedStores(m: PolicyMap)
    ensures var v1, v2 := Sent(ALLOWS), Sent(ABSTAINS);
      && Racing(v1, v2)
      && Lookup(ApplyAll(m, [v1, v2]), "p") == CompiledMessage(v2)
      && Lookup(ApplyAll(m, [v2, v1]), "p") == CompiledMessage(v1)
      && ApplyAll(m, [v2, v1]) != ApplyAll(m, [v1, v2])
  {
    var v1, v2 := Sent(ALLOWS), Sent(ABSTAINS);
    CompilesFrom(ALLOWS);
    CompilesFrom(ABSTAINS);
    FinalDecides(m, [v1, v2], "p");
    FinalDecides(m, [v2, v1], "p");
  }
}
