/** Distribution of policies from the control plane to its clients: the sender's map, the
    messages in flight to each client, and each listener's map
    (pkg/stream/sender/sender.go:75-177, pkg/stream/listener/listener.go:123-172).

    A change of the sender's map and its broadcast are separate: SendPolicy runs on its own, so
    it may put the message in flight to the clients registered at any later moment, and overtake
    another. A client's snapshot and its registration are separate too. Messages in flight may be
    applied in any order, because the listener starts a goroutine for each; they may also be
    duplicated by a retry, or lost. */
module Distribution {
  import opened Options
  import opened Policies
  import opened Compiler
  import opened Order
  import opened Listener
  import opened Races

  datatype Client = Client(policies: PolicyMap, inflight: seq<Message>, registered: bool)

  // announced: the messages handed to SendPolicy so far.
  datatype Net = Net(sender: map<string, Message>, announced: set<Message>, clients: map<string, Client>)

  datatype Step =
    | Store(policy: Policy)
    | Delete(name: string)
    | Tell(client: string, q: Message)
    | Snapshot(client: string)
    | Connect(client: string)
    | Evict(client: string)
    | Deliver(client: string, i: nat)
    | Duplicate(client: string, i: nat)
    | Lose(client: string, i: nat)

  ghost predicate CanStep(net: Net, a: Step) {
    match a
    case Store(_) => true
    case Delete(_) => true
    case Tell(c, q) => c in net.clients && net.clients[c].registered && q in net.announced
    case Snapshot(c) => c in net.clients
    case Connect(c) => c in net.clients
    case Evict(c) => c in net.clients
    case Deliver(c, i) => c in net.clients && i < |net.clients[c].inflight|
    case Duplicate(c, i) => c in net.clients && i < |net.clients[c].inflight|
    case Lose(c, i) => c in net.clients && i < |net.clients[c].inflight|
  }

  // What the client's map becomes when everything in flight is applied in order.
  ghost function Settled(cl: Client): PolicyMap { ApplyAll(cl.policies, cl.inflight) }

  // What a step does to the client c.
  ghost function ClientAfter(net: Net, a: Step, c: string): Client
    requires CanStep(net, a) && c in net.clients
  {
    var cl := net.clients[c];
    match a
    case Store(_) => cl
    case Delete(_) => cl
    case Tell(d, q) => if c == d then cl.(inflight := cl.inflight + [q]) else cl
    case Snapshot(d) => if c == d then cl.(inflight := cl.inflight + View(net.sender)) else cl
    case Connect(d) => if c == d then cl.(registered := true) else cl
    case Evict(d) => if c == d then cl.(registered := false) else cl
    case Deliver(d, i) =>
      if c != d then cl
      else cl.(policies := ApplyMessage(cl.policies, cl.inflight[i]), inflight := Without(cl.inflight, i))
    case Duplicate(d, i) => if c == d then cl.(inflight := cl.inflight + [cl.inflight[i]]) else cl
    case Lose(d, i) => if c == d then cl.(inflight := Without(cl.inflight, i)) else cl
  }

  // The message a change is broadcast as.
  ghost function ChangeMessage(a: Step): Option<Message> {
    match a
    case Store(p) => Some(Sent(p))
    case Delete(n) => Some(Deletion(n))
    case _ => None
  }

  ghost function Changed(sender: map<string, Message>, q: Message): map<string, Message> {
    if q.delete then sender - {q.name} else sender[q.name := q]
  }

  ghost function SenderAfter(net: Net, a: Step): map<string, Message> {
    if ChangeMessage(a).Some? then Changed(net.sender, ChangeMessage(a).value) else net.sender
  }

  ghost function After(net: Net, a: Step): Net
    requires CanStep(net, a)
  {
    Net(SenderAfter(net, a),
        net.announced + (if ChangeMessage(a).Some? then {ChangeMessage(a).value} else {}),
        map c | c in net.clients :: ClientAfter(net, a, c))
  }

  ghost predicate Initial(net: Net) {
    && net.sender == map[] && net.announced == {}
    && forall c :: c in net.clients ==> net.clients[c] == Client(map[], [], false)
  }

  ghost predicate Run(net: Net, steps: seq<Step>, net': Net)
    decreases |steps|
  {
    if steps == [] then net' == net
    else CanStep(net, steps[0]) && Run(After(net, steps[0]), steps[1..], net')
  }

  lemma {:induction false} RunAppend(net: Net, a: seq<Step>, mid: Net, b: seq<Step>, net': Net)
    requires Run(net, a, mid) && Run(mid, b, net')
    ensures Run(net, a + b, net')
    decreases |a|
  {
    hide After, CanStep;
    if a == [] {
      assert a + b == b;
    } else {
      assert (a + b)[1..] == a[1..] + b;
      RunAppend(After(net, a[0]), a[1..], mid, b, net');
    }
  }

  // ---- Safety: any delay, reordering, duplication and loss -----------------------------

  // The compiled form of something the control plane stored under this very name.
  ghost predicate Genuine(announced: set<Message>, n: string, cp: CompiledPolicy) {
    exists q :: q in announced && !q.delete && q.name == n && CompiledMessage(q) == Some(cp)
  }

  ghost predicate ClientSafe(announced: set<Message>, cl: Client) {
    && (forall n :: n in cl.policies ==> Genuine(announced, n, cl.policies[n]))
    && (forall q :: q in cl.inflight ==> q in announced)
  }

  ghost predicate Safe(net: Net) {
    && Keyed(net.sender) && (forall n :: n in net.sender ==> net.sender[n] in net.announced)
    && (forall c :: c in net.clients ==> ClientSafe(net.announced, net.clients[c]))
  }

  ghost predicate Keyed(snap: map<string, Message>) {
    forall n :: n in snap ==> snap[n].name == n && !snap[n].delete
  }

  lemma ClientSafeGrows(announced: set<Message>, more: set<Message>, cl: Client)
    requires ClientSafe(announced, cl) && announced <= more
    ensures ClientSafe(more, cl)
  {
    forall n | n in cl.policies ensures Genuine(more, n, cl.policies[n]) {
      var q :| q in announced && !q.delete && q.name == n && CompiledMessage(q) == Some(cl.policies[n]);
      assert q in more;
    }
  }

  lemma DeliverSafe(announced: set<Message>, cl: Client, i: nat)
    requires ClientSafe(announced, cl) && i < |cl.inflight|
    ensures ClientSafe(announced,
      cl.(policies := ApplyMessage(cl.policies, cl.inflight[i]), inflight := Without(cl.inflight, i)))
  {
    hide CompiledMessage;
    var q := cl.inflight[i];
    var after := ApplyMessage(cl.policies, q);
    assert q in cl.inflight;
    forall n | n in after ensures Genuine(announced, n, after[n]) {
      if n in cl.policies && after[n] == cl.policies[n] {
        assert Genuine(announced, n, cl.policies[n]);
      } else {
        assert q in announced && !q.delete && q.name == n && CompiledMessage(q) == Some(after[n]);
      }
    }
  }

  lemma {:induction false} ViewHoldsValues<V>(m: map<string, V>, v: V)
    requires v in View(m)
    ensures exists n :: n in m && m[n] == v
    decreases |m|
  {
    if m != map[] {
      var k := Least(m.Keys);
      assert (m - {k}).Keys == m.Keys - {k};
      if v != m[k] {
        ViewHoldsValues(m - {k}, v);
        var n :| n in m - {k} && (m - {k})[n] == v;
        assert n in m && m[n] == v;
      }
    }
  }

  // Nothing but known messages were added to what is in flight.
  lemma InflightSafe(announced: set<Message>, cl: Client, cl': Client, more: seq<Message>)
    requires ClientSafe(announced, cl) && cl'.policies == cl.policies
    requires forall q :: q in more ==> q in announced || q in cl.inflight
    requires forall q :: q in cl'.inflight ==> q in cl.inflight || q in more
    ensures ClientSafe(announced, cl')
  {}

  lemma StepKeepsClientSafe(net: Net, a: Step, c: string)
    requires Safe(net) && CanStep(net, a) && c in net.clients
    ensures ClientSafe(After(net, a).announced, ClientAfter(net, a, c))
  {
    hide CompiledMessage, ApplyMessage, Genuine, View, ClientSafe, Sent, Keyed;
    var cl, more := net.clients[c], After(net, a).announced;
    ClientSafeGrows(net.announced, more, cl);
    match a
    case Tell(d, q) => InflightSafe(more, cl, ClientAfter(net, a, c), [q]);
    case Snapshot(d) =>
      forall q | q in View(net.sender) ensures q in net.announced { ViewHoldsValues(net.sender, q); }
      InflightSafe(more, cl, ClientAfter(net, a, c), View(net.sender));
    case Deliver(d, i) => if c == d { DeliverSafe(more, cl, i); }
    case Duplicate(d, i) => if c == d { InflightSafe(more, cl, ClientAfter(net, a, c), [cl.inflight[i]]); }
    case _ => InflightSafe(more, cl, ClientAfter(net, a, c), []);
  }

  lemma StepKeepsSafe(net: Net, a: Step)
    requires Safe(net) && CanStep(net, a)
    ensures Safe(After(net, a))
  {
    hide CompiledMessage, ApplyMessage, ClientSafe, ClientAfter;
    var net' := After(net, a);
    forall c | c in net'.clients ensures ClientSafe(net'.announced, net'.clients[c]) { StepKeepsClientSafe(net, a, c); }
  }

  // In every run, whatever a client has under a name is the compiled form of a policy that
  // was stored under that name.
  lemma {:induction false} OnlyGenuinePolicies(net: Net, steps: seq<Step>, net': Net)
    requires Safe(net) && Run(net, steps, net')
    ensures Safe(net')
    ensures forall c, n :: c in net'.clients && n in net'.clients[c].policies ==>
      Genuine(net'.announced, n, net'.clients[c].policies[n])
    decreases |steps|
  {
    hide CompiledMessage, ApplyMessage, After;
    if steps != [] {
      StepKeepsSafe(net, steps[0]);
      OnlyGenuinePolicies(After(net, steps[0]), steps[1..], net');
    }
  }

  lemma InitialIsSafe(net: Net)
    requires Initial(net)
    ensures Safe(net)
  {}

  // ---- Harmless delivery ---------------------------------------------------------------

  // Said of the messages in flight alone: a delivery does not overtake a last word, and a
  // duplicate or a loss does not change one.
  ghost predicate Harmless(net: Net, a: Step) {
    match a
    case Deliver(c, i) =>
      c in net.clients && i < |net.clients[c].inflight| && MayOvertake(net.clients[c].inflight, i)
    case Duplicate(c, i) =>
      c in net.clients && i < |net.clients[c].inflight| && MayRepeat(net.clients[c].inflight, i)
    case Lose(c, i) =>
      c in net.clients && i < |net.clients[c].inflight| && MayLose(net.clients[c].policies, net.clients[c].inflight, i)
    case _ => true
  }

  // It is exactly what leaves the client on its way to the same map.
  lemma HarmlessIff(net: Net, a: Step)
    requires CanStep(net, a) && (a.Deliver? || a.Duplicate? || a.Lose?)
    ensures Settled(ClientAfter(net, a, a.client)) == Settled(net.clients[a.client]) <==> Harmless(net, a)
  {
    hide ApplyMessage, ApplyAll, MayOvertake, MayRepeat, MayLose;
    var cl := net.clients[a.client];
    match a
    case Deliver(_, i) => OvertakesIff(cl.policies, cl.inflight, i);
    case Duplicate(_, i) => RepeatsIff(cl.policies, cl.inflight, i);
    case Lose(_, i) => LosesIff(cl.policies, cl.inflight, i);
  }

  ghost predicate HarmlessRun(net: Net, steps: seq<Step>, net': Net)
    decreases |steps|
  {
    if steps == [] then net' == net
    else CanStep(net, steps[0]) && Harmless(net, steps[0]) && HarmlessRun(After(net, steps[0]), steps[1..], net')
  }

  lemma {:induction false} HarmlessIsRun(net: Net, steps: seq<Step>, net': Net)
    requires HarmlessRun(net, steps, net')
    ensures Run(net, steps, net')
    decreases |steps|
  {
    hide After, CanStep, Harmless;
    if steps != [] { HarmlessIsRun(After(net, steps[0]), steps[1..], net'); }
  }

  lemma ApplyNothing(m: PolicyMap, q: Message)
    ensures ApplyAll(m, []) == m && ApplyAll(m, [q]) == ApplyMessage(m, q)
  {
    assert [q][1..] == [];
  }

  // What a step adds to the messages on their way to c.
  ghost function Said(net: Net, a: Step, c: string): seq<Message> {
    match a
    case Tell(d, q) => if c == d then [q] else []
    case Snapshot(d) => if c == d then View(net.sender) else []
    case _ => []
  }

  lemma StepSettles(net: Net, a: Step, c: string)
    requires CanStep(net, a) && Harmless(net, a) && c in net.clients
    ensures Settled(ClientAfter(net, a, c)) == ApplyAll(Settled(net.clients[c]), Said(net, a, c))
  {
    hide ApplyMessage, View, Harmless;
    var cl := net.clients[c];
    ApplyAppend(cl.policies, cl.inflight, Said(net, a, c));
    if (a.Deliver? || a.Duplicate? || a.Lose?) && a.client == c { HarmlessIff(net, a); }
  }

  ghost function AllSaid(net: Net, steps: seq<Step>, c: string): seq<Message>
    decreases |steps|
  {
    if steps == [] || !CanStep(net, steps[0]) then []
    else Said(net, steps[0], c) + AllSaid(After(net, steps[0]), steps[1..], c)
  }

  // As long as every delivery is harmless a client is on its way to the map it started for,
  // changed by all it was told.
  lemma {:induction false} SettledFollows(net: Net, steps: seq<Step>, net': Net, c: string)
    requires HarmlessRun(net, steps, net') && c in net.clients
    ensures c in net'.clients
    ensures Settled(net'.clients[c]) == ApplyAll(Settled(net.clients[c]), AllSaid(net, steps, c))
    decreases |steps|
  {
    hide ApplyMessage, Settled, Said, ClientAfter, Harmless, CanStep;
    if steps == [] {
    } else {
      var net1 := After(net, steps[0]);
      StepSettles(net, steps[0], c);
      SettledFollows(net1, steps[1..], net', c);
      ApplyAppend(Settled(net.clients[c]), Said(net, steps[0], c), AllSaid(net1, steps[1..], c));
    }
  }

  // Who is not registered is told nothing until it registers.
  lemma {:induction false} UnregisteredIsNotTold(net: Net, steps: seq<Step>, net': Net, c: string)
    requires Run(net, steps, net') && c in net.clients && !net.clients[c].registered
    requires forall i :: 0 <= i < |steps| ==> steps[i] != Connect(c) && steps[i] != Snapshot(c)
    ensures AllSaid(net, steps, c) == [] && c in net'.clients && !net'.clients[c].registered
    decreases |steps|
  {
    hide ApplyMessage, SenderAfter;
    if steps != [] {
      assert steps[0] != Connect(c) && steps[0] != Snapshot(c);
      var rest := steps[1..];
      assert forall i :: 0 <= i < |rest| ==> rest[i] == steps[i + 1];
      UnregisteredIsNotTold(After(net, steps[0]), rest, net', c);
    }
  }

  // An eviction ends the telling, and a registration opens it again to every broadcast made so
  // far.
  lemma TellingOpensAndEnds(net: Net, c: string, q: Message)
    requires c in net.clients
    ensures !CanStep(After(net, Evict(c)), Tell(c, q))
    ensures CanStep(After(net, Connect(c)), Tell(c, q)) <==> q in net.announced
  {}

  lemma EmptySettles(cl: Client)
    requires cl.inflight == []
    ensures Settled(cl) == cl.policies
  {}

  // ---- Any order -----------------------------------------------------------------------

  // Nothing is lost or duplicated, but anything may overtake anything.
  ghost predicate Whole(steps: seq<Step>) { forall i :: 0 <= i < |steps| ==> !steps[i].Lose? && !steps[i].Duplicate? }

  lemma WholeStep(net: Net, a: Step, c: string)
    requires CanStep(net, a) && !a.Lose? && !a.Duplicate? && c in net.clients
    ensures c in After(net, a).clients
    ensures var cl, cl' := net.clients[c], After(net, a).clients[c];
      if a.Deliver? && a.client == c then
        && a.i < |cl.inflight| && cl'.policies == ApplyMessage(cl.policies, cl.inflight[a.i])
        && cl'.inflight == Without(cl.inflight, a.i) && Said(net, a, c) == []
      else cl'.policies == cl.policies && cl'.inflight == cl.inflight + Said(net, a, c)
  {
    hide ApplyMessage, View, SenderAfter;
  }

  lemma ApplyNone(m: PolicyMap)
    ensures ApplyAll(m, []) == m
  {}

  lemma ApplyFirst(m: PolicyMap, q: Message, qs: seq<Message>)
    ensures ApplyAll(m, [q] + qs) == ApplyAll(ApplyMessage(m, q), qs)
  {
    hide ApplyMessage;
    assert ([q] + qs)[1..] == qs;
  }

  lemma Regroup(q: Message, a: multiset<Message>, b: multiset<Message>, c: multiset<Message>, d: multiset<Message>,
                e: multiset<Message>)
    requires a + b == c + d && c + multiset{q} == e
    ensures (multiset{q} + a) + b == e + d
  {
    assert (multiset{q} + a) + b == multiset{q} + (a + b);
  }

  lemma AppliedFirst(inflight: seq<Message>, i: nat, ps: seq<Message>, left: seq<Message>, said: seq<Message>)
    requires i < |inflight|
    requires multiset(ps) + multiset(left) == multiset(Without(inflight, i)) + multiset(said)
    ensures multiset([inflight[i]] + ps) + multiset(left) == multiset(inflight) + multiset(said)
  {
    var q := inflight[i];
    WithoutOne(inflight, i);
    assert multiset([q] + ps) == multiset{q} + multiset(ps);
    Regroup(q, multiset(ps), multiset(left), multiset(Without(inflight, i)), multiset(said), multiset(inflight));
  }

  lemma WholeAppend(a: seq<Step>, b: seq<Step>)
    requires Whole(a) && Whole(b)
    ensures Whole(a + b)
  {}

  // What has been applied and what is in flight are together what was said.
  lemma {:induction false} SomeOrder(net: Net, steps: seq<Step>, net': Net, c: string) returns (ps: seq<Message>)
    requires Run(net, steps, net') && Whole(steps) && c in net.clients
    ensures c in net'.clients && net'.clients[c].policies == ApplyAll(net.clients[c].policies, ps)
    ensures multiset(ps) + multiset(net'.clients[c].inflight) ==
      multiset(net.clients[c].inflight) + multiset(AllSaid(net, steps, c))
    decreases |steps|
  {
    hide ApplyMessage, ApplyAll, CanStep, After, Said, Without;
    ApplyNone(net.clients[c].policies);
    if steps == [] {
      ps := [];
    } else {
      var a := steps[0];
      assert !a.Lose? && !a.Duplicate?;
      assert Whole(steps[1..]) by { assert forall i :: 0 <= i < |steps[1..]| ==> steps[1..][i] == steps[i + 1]; }
      WholeStep(net, a, c);
      ps := SomeOrder(After(net, a), steps[1..], net', c);
      if a.Deliver? && a.client == c {
        var cl := net.clients[c];
        ApplyFirst(cl.policies, cl.inflight[a.i], ps);
        AppliedFirst(cl.inflight, a.i, ps, net'.clients[c].inflight, AllSaid(After(net, a), steps[1..], c));
        assert AllSaid(net, steps, c) == AllSaid(After(net, a), steps[1..], c);
        ps := [cl.inflight[a.i]] + ps;
      }
    }
  }

  lemma TakeFirst(ps: seq<Message>, qs: seq<Message>) returns (i: nat)
    requires ps != [] && Reordered(ps, qs)
    ensures i < |qs| && qs[i] == ps[0] && Reordered(ps[1..], Without(qs, i))
  {
    assert ps[0] in multiset(qs);
    i :| 0 <= i < |qs| && qs[i] == ps[0];
    WithoutOne(qs, i);
    hide Without;
    assert ps == [ps[0]] + ps[1..];
    assert multiset(ps[1..]) == multiset(ps) - multiset{ps[0]};
    assert multiset(Without(qs, i)) == multiset(qs) - multiset{qs[i]};
  }

  // Every order is possible: the messages in flight can be delivered in it.
  lemma {:induction false} EveryOrder(net: Net, c: string, ps: seq<Message>) returns (steps: seq<Step>, net': Net)
    requires c in net.clients && Reordered(ps, net.clients[c].inflight)
    ensures Run(net, steps, net') && Whole(steps) && AllSaid(net, steps, c) == []
    ensures c in net'.clients && net'.clients[c].inflight == []
    ensures net'.clients[c].policies == ApplyAll(net.clients[c].policies, ps)
    decreases |ps|
  {
    hide ApplyMessage, ApplyAll, Without;
    var cl := net.clients[c];
    if ps == [] {
      assert |multiset(cl.inflight)| == 0;
      steps, net' := [], net;
      ApplyNone(cl.policies);
    } else {
      var i := TakeFirst(ps, cl.inflight);
      var a := Deliver(c, i);
      assert CanStep(net, a) && Said(net, a, c) == [];
      WholeStep(net, a, c);
      ApplyFirst(cl.policies, ps[0], ps[1..]);
      assert ps == [ps[0]] + ps[1..];
      hide After, CanStep, Said, Reordered;
      var rest;
      rest, net' := EveryOrder(After(net, a), c, ps[1..]);
      steps := [a] + rest;
      assert steps[1..] == rest;
    }
  }

  // ---- Snapshots -----------------------------------------------------------------------

  // qs lists the messages of a snapshot, each once, in some order.
  ghost predicate SnapshotOrder(qs: seq<Message>, snap: map<string, Message>) {
    Keyed(snap) && forall n :: ForName(qs, n) == Only(snap, n)
  }

  ghost function CompiledMap(snap: map<string, Message>): PolicyMap {
    map n | n in snap && CompiledMessage(snap[n]).Some? :: CompiledMessage(snap[n]).value
  }

  ghost function Only(snap: map<string, Message>, n: string): seq<Message> {
    if n in snap then [snap[n]] else []
  }

  lemma {:induction false} ViewOnly(snap: map<string, Message>, n: string)
    requires Keyed(snap)
    ensures ForName(View(snap), n) == Only(snap, n)
    decreases |snap|
  {
    if snap != map[] {
      var k := Least(snap.Keys);
      var rest := snap - {k};
      assert rest.Keys == snap.Keys - {k};
      ViewOnly(rest, n);
      assert View(snap) == [snap[k]] + View(rest);
      assert View(snap)[1..] == View(rest);
    }
  }

  lemma ViewIsSnapshotOrder(snap: map<string, Message>)
    requires Keyed(snap)
    ensures SnapshotOrder(View(snap), snap)
  {
    hide View, ForName;
    forall n ensures ForName(View(snap), n) == Only(snap, n) { ViewOnly(snap, n); }
  }

  // A snapshot applied in any order overrides the map with what compiles of it, and leaves
  // every other name alone.
  lemma SnapshotOverrides(m: PolicyMap, qs: seq<Message>, snap: map<string, Message>, n: string)
    requires SnapshotOrder(qs, snap)
    ensures Lookup(ApplyAll(m, qs), n) == if n in CompiledMap(snap) then Some(CompiledMap(snap)[n]) else Lookup(m, n)
  {
    hide CompiledMessage, ApplyAll, ForName;
    NameByName(m, qs, n);
    assert ForName(qs, n) == Only(snap, n);
    if n in snap { assert [snap[n]][..0] == []; }
  }

  // After a registration the client has its previous map overridden by the snapshot; that is
  // the control plane's compiled map exactly when no older name survives.
  lemma Resynchronises(m: PolicyMap, qs: seq<Message>, snap: map<string, Message>)
    requires SnapshotOrder(qs, snap)
    ensures ApplyAll(m, qs) == m + CompiledMap(snap)
    ensures ApplyAll(m, qs) == CompiledMap(snap) <==> forall n :: n in m ==> n in CompiledMap(snap)
  {
    hide CompiledMessage, ApplyAll, CompiledMap, SnapshotOrder;
    var x, y := ApplyAll(m, qs), m + CompiledMap(snap);
    forall n ensures Lookup(x, n) == Lookup(y, n) { SnapshotOverrides(m, qs, snap, n); }
    SameLookups(x, y);
    if forall n :: n in m ==> n in CompiledMap(snap) {
      assert y == CompiledMap(snap);
    } else {
      var n :| n in m && n !in CompiledMap(snap);
      assert n in y;
    }
  }

  // ---- Agreement with the control plane ------------------------------------------------

  ghost function CompiledAt(sender: map<string, Message>, n: string): Option<CompiledPolicy> {
    if n in sender then CompiledMessage(sender[n]) else None
  }

  // Once everything in flight is applied, the client will not have under n what the control
  // plane's map compiles to.
  ghost predicate Apart(sender: map<string, Message>, cl: Client, n: string) {
    Lookup(Settled(cl), n) != CompiledAt(sender, n)
  }

  ghost predicate InStep(net: Net, c: string)
    requires c in net.clients
  {
    forall n :: !Apart(net.sender, net.clients[c], n)
  }

  lemma SettledLookup(cl: Client, more: seq<Message>, n: string)
    ensures Lookup(Settled(cl.(inflight := cl.inflight + more)), n) == LeftBy(Lookup(Settled(cl), n), Final(more, n))
  {
    hide CompiledMessage, ApplyMessage;
    ApplyAppend(cl.policies, cl.inflight, more);
    FinalDecides(Settled(cl), more, n);
  }

  // A change sets a name apart exactly when it compiles to something else than the client is on
  // its way to.
  lemma ChangeSetsApart(net: Net, a: Step, c: string, n: string)
    requires CanStep(net, a) && ChangeMessage(a).Some? && c in net.clients
    ensures Apart(SenderAfter(net, a), ClientAfter(net, a, c), n) <==>
      var q := ChangeMessage(a).value;
      if q.name == n then Lookup(Settled(net.clients[c]), n) != CompiledMessage(q)
      else Apart(net.sender, net.clients[c], n)
  {
    assert ChangeMessage(a).value.delete ==> CompiledMessage(ChangeMessage(a).value) == None;
    hide CompiledMessage, Settled, Sent;
  }

  // Telling a client a message that acts brings its name together exactly when the message
  // compiles to what the control plane has.
  lemma TellBringsTogether(net: Net, c: string, q: Message, n: string)
    requires CanStep(net, Tell(c, q))
    ensures Apart(net.sender, ClientAfter(net, Tell(c, q), c), n) <==>
      if ActsOn(q, n) then CompiledMessage(q) != CompiledAt(net.sender, n) else Apart(net.sender, net.clients[c], n)
  {
    SettledLookup(net.clients[c], [q], n);
    assert [q][..0] == [];
    hide CompiledMessage, Settled;
  }

  // After a snapshot the names apart are those the client goes on to hold and the snapshot does
  // not cover.
  lemma SnapshotBringsTogether(net: Net, c: string, n: string)
    requires Keyed(net.sender) && c in net.clients
    ensures var cl := net.clients[c];
      && Settled(ClientAfter(net, Snapshot(c), c)) == Settled(cl) + CompiledMap(net.sender)
      && (Apart(net.sender, ClientAfter(net, Snapshot(c), c), n) <==>
          n in Settled(cl) && n !in CompiledMap(net.sender))
  {
    hide CompiledMessage, ApplyAll, SnapshotOrder, View, CompiledMap;
    var cl := net.clients[c];
    ViewIsSnapshotOrder(net.sender);
    ApplyAppend(cl.policies, cl.inflight, View(net.sender));
    Resynchronises(Settled(cl), View(net.sender), net.sender);
    CompiledMapAt(net.sender, n);
  }

  lemma CompiledMapAt(snap: map<string, Message>, n: string)
    ensures Lookup(CompiledMap(snap), n) == CompiledAt(snap, n)
  {
    hide CompiledMessage;
  }

  // When nothing is in flight to a client, its map is the control plane's compiled map exactly
  // when no name is apart.
  lemma IdleClientsAgree(net: Net, c: string)
    requires c in net.clients && net.clients[c].inflight == []
    ensures net.clients[c].policies == CompiledMap(net.sender) <==> InStep(net, c)
  {
    hide CompiledMessage, CompiledMap, ApplyMessage;
    var cl, all := net.clients[c], CompiledMap(net.sender);
    EmptySettles(cl);
    forall n ensures Lookup(all, n) == CompiledAt(net.sender, n) { CompiledMapAt(net.sender, n); }
    if InStep(net, c) {
      forall n ensures Lookup(cl.policies, n) == Lookup(all, n) { assert !Apart(net.sender, cl, n); }
      SameLookups(cl.policies, all);
    }
  }

  lemma AfterSnapshot(net: Net, c: string)
    requires c in net.clients
    ensures After(net, Snapshot(c)).sender == net.sender && c in After(net, Snapshot(c)).clients
    ensures After(net, Snapshot(c)).clients[c] == ClientAfter(net, Snapshot(c), c)
  {
    hide ClientAfter;
  }

  lemma FreshSettles(net: Net, c: string)
    requires Keyed(net.sender) && c in net.clients
    requires net.clients[c].policies == map[] && net.clients[c].inflight == []
    ensures Settled(ClientAfter(net, Snapshot(c), c)) == CompiledMap(net.sender)
    ensures forall n :: !Apart(net.sender, ClientAfter(net, Snapshot(c), c), n)
  {
    hide Settled, ClientAfter, CompiledMap, Apart, Keyed;
    EmptySettles(net.clients[c]);
    forall n ensures !Apart(net.sender, ClientAfter(net, Snapshot(c), c), n) { SnapshotBringsTogether(net, c, n); }
    SnapshotBringsTogether(net, c, "");
    NothingAdded(CompiledMap(net.sender));
  }

  lemma NothingAdded(m: PolicyMap)
    ensures map[] + m == m
  {}

  // A fresh client that takes its snapshot is in step with the control plane.
  lemma FreshClientJoins(net: Net, c: string)
    requires Keyed(net.sender) && c in net.clients
    requires net.clients[c].policies == map[] && net.clients[c].inflight == []
    ensures InStep(After(net, Snapshot(c)), c)
    ensures Settled(After(net, Snapshot(c)).clients[c]) == CompiledMap(net.sender)
  {
    AfterSnapshot(net, c);
    FreshSettles(net, c);
    hide Settled, ClientAfter, CompiledMap, After, Apart;
  }

  // A change that falls between a client's snapshot and its registration, and is not sent to it,
  // sets its name apart exactly when it compiles to something else than the client had or got by
  // the snapshot.
  lemma ChangeInTheGap(net: Net, c: string, a: Step)
    requires Keyed(net.sender) && c in net.clients && ChangeMessage(a).Some?
    ensures var q := ChangeMessage(a).value;
      var last := After(After(After(net, Snapshot(c)), a), Connect(c));
      Apart(last.sender, last.clients[c], q.name) <==>
        Lookup(Settled(net.clients[c]) + CompiledMap(net.sender), q.name) != CompiledMessage(q)
  {
    var q, net1 := ChangeMessage(a).value, After(net, Snapshot(c));
    var net2 := After(net1, a);
    AfterSnapshot(net, c);
    AfterChange(net1, a, c);
    AfterConnect(net2, c);
    SettledIgnoresRegistration(net2.clients[c]);
    hide After, ClientAfter, Settled, CompiledMap, CompiledMessage, SenderAfter, Keyed, ChangeMessage;
    SnapshotBringsTogether(net, c, q.name);
    ChangeSetsApart(net1, a, c, q.name);
  }

  lemma AfterChange(net: Net, a: Step, c: string)
    requires c in net.clients && ChangeMessage(a).Some?
    ensures After(net, a).sender == SenderAfter(net, a) && c in After(net, a).clients
    ensures After(net, a).clients[c] == ClientAfter(net, a, c) == net.clients[c]
  {
    hide SenderAfter;
  }

  lemma AfterConnect(net: Net, c: string)
    requires c in net.clients
    ensures After(net, Connect(c)).sender == net.sender && c in After(net, Connect(c)).clients
    ensures After(net, Connect(c)).clients[c] == net.clients[c].(registered := true)
  {
    hide Changed;
  }

  lemma SettledIgnoresRegistration(cl: Client)
    ensures Settled(cl.(registered := true)) == Settled(cl)
  {}

  // A step that could change whether n is apart for c.
  ghost predicate Touches(a: Step, c: string, n: string) {
    || a == Snapshot(c) || (a.Tell? && a.client == c && a.q.name == n)
    || (ChangeMessage(a).Some? && ChangeMessage(a).value.name == n)
  }

  lemma UntouchedStays(net: Net, a: Step, c: string, n: string)
    requires CanStep(net, a) && Harmless(net, a) && c in net.clients && !Touches(a, c, n)
    ensures Apart(SenderAfter(net, a), ClientAfter(net, a, c), n) <==> Apart(net.sender, net.clients[c], n)
  {
    hide CompiledMessage, View, Sent, ApplyAll;
    StepSettles(net, a, c);
    FinalDecides(Settled(net.clients[c]), Said(net, a, c), n);
    hide Settled, Harmless, ClientAfter;
    if a.Tell? && a.client == c { assert [a.q][..0] == []; }
  }

  // A name that is apart stays so, and one that is not stays so, until it is changed, the client
  // is told of it, or takes another snapshot.
  lemma {:induction false} ApartStays(net: Net, steps: seq<Step>, net': Net, c: string, n: string)
    requires HarmlessRun(net, steps, net') && c in net.clients
    requires forall i :: 0 <= i < |steps| ==> !Touches(steps[i], c, n)
    ensures c in net'.clients
    ensures Apart(net'.sender, net'.clients[c], n) <==> Apart(net.sender, net.clients[c], n)
    decreases |steps|
  {
    hide CompiledMessage, ApplyMessage, Settled;
    if steps != [] {
      assert !Touches(steps[0], c, n);
      UntouchedStays(net, steps[0], c, n);
      hide Touches, ClientAfter, SenderAfter, Harmless, Apart, CanStep;
      var rest := steps[1..];
      assert forall i :: 0 <= i < |rest| ==> rest[i] == steps[i + 1];
      ApartStays(After(net, steps[0]), rest, net', c, n);
    }
  }

  // ---- Clients that are told of every change -------------------------------------------

  ghost function ChangeOf(a: Step): seq<Message> {
    if ChangeMessage(a).Some? then [ChangeMessage(a).value] else []
  }

  ghost function Changes(steps: seq<Step>): seq<Message> {
    if steps == [] then [] else ChangeOf(steps[0]) + Changes(steps[1..])
  }

  ghost function ChangedAll(sender: map<string, Message>, qs: seq<Message>): map<string, Message> {
    if qs == [] then sender else Changed(ChangedAll(sender, qs[..|qs| - 1]), qs[|qs| - 1])
  }

  lemma {:induction false} ChangedAppend(sender: map<string, Message>, a: seq<Message>, b: seq<Message>)
    ensures ChangedAll(sender, a + b) == ChangedAll(ChangedAll(sender, a), b)
    decreases |b|
  {
    hide Changed;
    if b == [] {
      assert a + b == a;
    } else {
      assert (a + b)[..|a + b| - 1] == a + b[..|b| - 1];
      ChangedAppend(sender, a, b[..|b| - 1]);
    }
  }

  lemma SenderStep(net: Net, a: Step)
    ensures SenderAfter(net, a) == ChangedAll(net.sender, ChangeOf(a))
  {
    hide Changed, ChangeMessage;
    if ChangeMessage(a).Some? { assert ChangeOf(a)[..0] == []; }
  }

  lemma {:induction false} SenderFollows(net: Net, steps: seq<Step>, net': Net)
    requires Run(net, steps, net')
    ensures net'.sender == ChangedAll(net.sender, Changes(steps))
    decreases |steps|
  {
    hide Harmless, CanStep, ChangedAll, SenderAfter, ChangeOf, ClientAfter;
    if steps != [] {
      SenderStep(net, steps[0]);
      SenderFollows(After(net, steps[0]), steps[1..], net');
      ChangedAppend(net.sender, ChangeOf(steps[0]), Changes(steps[1..]));
    } else {
      ChangedNothing(net.sender);
    }
  }

  lemma ChangedNothing(sender: map<string, Message>)
    ensures ChangedAll(sender, []) == sender
  {}

  // What the sender holds compiles to what the changes leave, unless the last version does not
  // compile.
  lemma {:induction false} CompiledFollows(sender: map<string, Message>, qs: seq<Message>, n: string)
    ensures var now := ChangedAll(sender, qs);
      n !in now || CompiledMessage(now[n]).Some? ==> CompiledAt(now, n) == LeftBy(CompiledAt(sender, n), Final(qs, n))
    decreases |qs|
  {
    hide CompiledMessage;
    if qs != [] {
      var q, front := qs[|qs| - 1], qs[..|qs| - 1];
      CompiledFollows(sender, front, n);
      DeletionLeavesNothing(q);
    }
  }

  lemma DeletionLeavesNothing(q: Message)
    ensures q.delete ==> CompiledMessage(q) == None
  {}

  // A map taken to agree with the sender's, after messages with the effect of the changes: it
  // agrees on every name whose stored version compiles and every name not stored, and on the
  // whole exactly when it kept nothing under a name whose stored version does not compile.
  ghost predicate Agreed(mine: PolicyMap, sender: map<string, Message>) {
    && (forall n :: n !in sender || n in CompiledMap(sender) ==> Lookup(mine, n) == Lookup(CompiledMap(sender), n))
    && (mine == CompiledMap(sender) <==> forall n :: n in mine ==> n in CompiledMap(sender))
  }

  lemma ToldMapsAgree(sender: map<string, Message>, m: PolicyMap, ps: seq<Message>, qs: seq<Message>)
    requires forall n :: Lookup(m, n) == CompiledAt(sender, n)
    requires forall n :: Final(ps, n) == Final(qs, n)
    ensures Agreed(ApplyAll(m, ps), ChangedAll(sender, qs))
  {
    hide CompiledMessage, ApplyAll, CompiledMap, ChangedAll;
    var mine, now := ApplyAll(m, ps), ChangedAll(sender, qs);
    var all := CompiledMap(now);
    forall n | n !in now || n in all ensures Lookup(mine, n) == Lookup(all, n) {
      FinalDecides(m, ps, n);
      CompiledFollows(sender, qs, n);
      CompiledMapAt(now, n);
      assert n in all ==> Lookup(all, n).Some?;
    }
    if forall n :: n in mine ==> n in all {
      forall n ensures Lookup(mine, n) == Lookup(all, n) {}
      SameLookups(mine, all);
    }
  }

  // A client in step at the start and told of nothing but the changes, or of messages with the
  // same effect: once idle after harmless deliveries it agrees with the control plane so.
  lemma ToldClientsConverge(net: Net, steps: seq<Step>, net': Net, c: string)
    requires HarmlessRun(net, steps, net') && c in net.clients && InStep(net, c)
    requires forall n :: Final(AllSaid(net, steps, c), n) == Final(Changes(steps), n)
    requires c in net'.clients && net'.clients[c].inflight == []
    ensures Agreed(net'.clients[c].policies, net'.sender)
  {
    EmptySettles(net'.clients[c]);
    hide CompiledMessage, ApplyAll, HarmlessRun, Run, Settled, Agreed, ChangedAll, AllSaid, Changes;
    HarmlessIsRun(net, steps, net');
    SettledFollows(net, steps, net', c);
    SenderFollows(net, steps, net');
    forall n ensures Lookup(Settled(net.clients[c]), n) == CompiledAt(net.sender, n) {
      assert !Apart(net.sender, net.clients[c], n);
    }
    ToldMapsAgree(net.sender, Settled(net.clients[c]), AllSaid(net, steps, c), Changes(steps));
  }

  // The same in any order, with nothing lost or duplicated, if no two changes race.
  lemma AnyOrderConverges(net: Net, steps: seq<Step>, net': Net, c: string)
    requires Run(net, steps, net') && Whole(steps) && c in net.clients && InStep(net, c)
    requires Reordered(AllSaid(net, steps, c), Changes(steps)) && NoRace(Changes(steps))
    requires net.clients[c].inflight == [] && c in net'.clients && net'.clients[c].inflight == []
    ensures Agreed(net'.clients[c].policies, net'.sender)
  {
    EmptySettles(net.clients[c]);
    hide CompiledMessage, ApplyAll, Run, Settled, Agreed, ChangedAll, AllSaid, Changes, NoRace, Final;
    SenderFollows(net, steps, net');
    var ps := SomeOrder(net, steps, net', c);
    SameMembers(ps, net'.clients[c].inflight, net.clients[c].inflight, AllSaid(net, steps, c), Changes(steps));
    forall n ensures Final(ps, n) == Final(Changes(steps), n) { NoRaceSettles(ps, Changes(steps), n); }
    forall n ensures Lookup(net.clients[c].policies, n) == CompiledAt(net.sender, n) {
      assert !Apart(net.sender, net.clients[c], n);
    }
    ToldMapsAgree(net.sender, net.clients[c].policies, ps, Changes(steps));
  }

  lemma SameMembers(ps: seq<Message>, left: seq<Message>, before: seq<Message>, said: seq<Message>, qs: seq<Message>)
    requires left == [] && before == [] && Reordered(said, qs)
    requires multiset(ps) + multiset(left) == multiset(before) + multiset(said)
    ensures Reordered(ps, qs) && forall q :: q in ps <==> q in qs
  {
    assert multiset(ps) + multiset(left) == multiset(ps) && multiset(before) + multiset(said) == multiset(said);
    assert forall q :: q in ps <==> q in multiset(ps);
    assert forall q :: q in qs <==> q in multiset(qs);
  }

  // Every order of the changes leads a client to the control plane's compiled map exactly when no
  // two of them race and the order in which they were made does.
  lemma AgreesInAnyOrderIff(sender: map<string, Message>, m: PolicyMap, qs: seq<Message>)
    ensures (forall ps :: Reordered(ps, qs) ==> ApplyAll(m, ps) == CompiledMap(ChangedAll(sender, qs))) <==>
      NoRace(qs) && ApplyAll(m, qs) == CompiledMap(ChangedAll(sender, qs))
  {
    hide ApplyAll, CompiledMap, ChangedAll, NoRace;
    OrderIrrelevantIff(m, qs);
    assert Reordered(qs, qs);
  }
}
