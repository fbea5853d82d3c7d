/** From reconcile events to the list a sidecar serves: the mesh reconciler's map, carried by any
    run of the distribution, against the standalone server's list. */
module EndToEnd {
  import opened Cel
  import opened Options
  import opened Policies
  import opened Compiler
  import opened Engine
  import opened Order
  import opened Handler
  import opened Listener
  import opened Races
  import opened Reconcilers
  import opened Routes
  import opened Distribution
  import opened Decisions
  import opened Outcomes

  type Trace = seq<Distribution.Step>

  // ---- Sidecars that were told every change --------------------------------------------

  // What the mesh reconciler broadcasts over a sequence of events.
  ghost function Broadcasts(events: seq<Event>): seq<Message> {
    if events == [] then []
    else
      var q := Broadcast(events[|events| - 1]);
      Broadcasts(events[..|events| - 1]) + if q.Some? then [q.value] else []
  }

  lemma {:induction false} SidecarAppliesBroadcasts(events: seq<Event>)
    ensures Sidecar(events) == ApplyAll(map[], Broadcasts(events))
    decreases |events|
  {
    hide ApplyMessage, Broadcast;
    if events != [] {
      var front, q := events[..|events| - 1], Broadcast(events[|events| - 1]);
      SidecarAppliesBroadcasts(front);
      if q.Some? {
        ApplyAppend(map[], Broadcasts(front), [q.value]);
        ApplyNothing(Sidecar(front), q.value);
      } else {
        assert Broadcasts(front) + [] == Broadcasts(front);
      }
    }
  }

  ghost predicate StartsEmpty(net: Net, c: string) {
    c in net.clients && net.clients[c].policies == map[] && net.clients[c].inflight == []
  }

  ghost predicate Idle(net: Net, c: string) { c in net.clients && net.clients[c].inflight == [] }

  // The map of a client that starts empty, once idle after harmless deliveries, is the sidecar's
  // after the events exactly when what it was told leaves under every name what the broadcasts
  // leave, whether or not the versions compile.
  lemma ConnectedMapFollows(events: seq<Event>, net: Net, steps: Trace, net': Net, c: string)
    requires StartsEmpty(net, c) && HarmlessRun(net, steps, net') && Idle(net', c)
    ensures net'.clients[c].policies == Sidecar(events) <==>
      forall n :: LeftBy(None, Final(AllSaid(net, steps, c), n)) == LeftBy(None, Final(Broadcasts(events), n))
  {
    EmptySettles(net.clients[c]);
    EmptySettles(net'.clients[c]);
    hide Settled, HarmlessRun, ApplyAll, Final;
    SettledFollows(net, steps, net', c);
    SidecarAppliesBroadcasts(events);
    SameMapIff(map[], map[], AllSaid(net, steps, c), Broadcasts(events));
    forall n ensures Lookup(map[], n) == None {}
  }

  // What it was told has the effect of the broadcasts of the events.
  ghost predicate ToldOf(said: seq<Message>, events: seq<Event>) {
    forall n :: Final(said, n) == Final(Broadcasts(events), n)
  }

  // A client told of the events from the start serves what the last HTTP versions compile to:
  // the standalone map exactly when the routes meet, and otherwise the answers of these versions
  // without the silenced ones.
  lemma ConnectedSidecarsServe(events: seq<Event>, net: Net, steps: Trace, net': Net, c: string, q: Request)
    requires Proper(events)
    requires StartsEmpty(net, c) && HarmlessRun(net, steps, net') && Idle(net', c)
    requires ToldOf(AllSaid(net, steps, c), events)
    ensures net'.clients[c].policies == Sidecar(events) == Carried(SurvivingHttp(events))
    ensures Renamed(net'.clients[c].policies, Standalone(events), "/") <==>
      RoutesMeet(Surviving(events), SurvivingHttp(events))
    ensures Decide(View(net'.clients[c].policies), q) ==
      LeastDecides(Direct(SurvivingHttp(events)) - Silenced(SurvivingHttp(events), q), q)
  {
    hide Accepted, Program, Received, Sent, Surviving, SurvivingHttp, Standalone, Sidecar, View, Silenced, Decide;
    hide LeastDecides, HarmlessRun, Renamed, RoutesMeet, Final, AllSaid;
    ConnectedMapFollows(events, net, steps, net', c);
    SidecarIsCarried(events);
    RoutesServeTheSamePolicies(events);
    SidecarAnswer(events, q);
  }

  // ---- Any order -----------------------------------------------------------------------

  // A complete delivery to c, which starts empty, of messages with nothing lost or duplicated.
  ghost predicate Complete(net: Net, steps: Trace, net': Net, c: string) {
    StartsEmpty(net, c) && Run(net, steps, net') && Whole(steps) && Idle(net', c)
  }

  // If no two broadcasts race, told and delivered in any order they leave the sidecar's map.
  lemma AnyOrderServes(events: seq<Event>, net: Net, steps: Trace, net': Net, c: string)
    requires Complete(net, steps, net', c)
    requires Reordered(AllSaid(net, steps, c), Broadcasts(events)) && NoRace(Broadcasts(events))
    ensures net'.clients[c].policies == Sidecar(events)
  {
    hide Run, ApplyAll, AllSaid, Broadcasts, NoRace;
    var ps := SomeOrder(net, steps, net', c);
    SameMembers(ps, net'.clients[c].inflight, net.clients[c].inflight, AllSaid(net, steps, c), Broadcasts(events));
    OrderIrrelevantIff(map[], Broadcasts(events));
    SidecarAppliesBroadcasts(events);
  }

  function Start(c: string): Net { Net(map[], {}, map[c := Client(map[], [], true)]) }

  // The change behind a broadcast.
  ghost function ChangeFor(e: Event): Distribution.Step
    requires Broadcast(e).Some?
    ensures ChangeMessage(ChangeFor(e)) == Broadcast(e)
  {
    if e.fetched.NotFound? then Step.Delete(e.name) else Step.Store(e.fetched.policy)
  }

  lemma {:induction false} SaidAppend(net: Net, a: Trace, mid: Net, b: Trace, c: string)
    requires Run(net, a, mid)
    ensures AllSaid(net, a + b, c) == AllSaid(net, a, c) + AllSaid(mid, b, c)
    decreases |a|
  {
    hide Distribution.After, CanStep, Said;
    if a == [] {
      assert a + b == b;
    } else {
      assert (a + b)[1..] == a[1..] + b;
      SaidAppend(Distribution.After(net, a[0]), a[1..], mid, b, c);
    }
  }

  // Made and told one after the other, the broadcasts are all in flight in their order.
  lemma {:induction false} AllInFlight(events: seq<Event>, c: string) returns (steps: Trace, net: Net)
    ensures Run(Start(c), steps, net) && Whole(steps) && AllSaid(Start(c), steps, c) == Broadcasts(events)
    ensures c in net.clients && net.clients[c] == Client(map[], Broadcasts(events), true)
    decreases |events|
  {
    hide Broadcast, Changed;
    if events == [] {
      steps, net := [], Start(c);
    } else {
      var e := events[|events| - 1];
      steps, net := AllInFlight(events[..|events| - 1], c);
      if Broadcast(e).Some? {
        var mid := net;
        var more;
        more, net := TellOne(mid, c, e);
        WholeAppend(steps, more);
        hide Run, AllSaid, Whole, Start;
        SaidAppend(Start(c), steps, mid, more, c);
        RunAppend(Start(c), steps, mid, more, net);
        steps := steps + more;
      } else {
        assert Broadcasts(events) == Broadcasts(events[..|events| - 1]) + [];
      }
    }
  }

  lemma TellOne(net: Net, c: string, e: Event) returns (steps: Trace, net': Net)
    requires c in net.clients && net.clients[c].registered && Broadcast(e).Some?
    ensures Run(net, steps, net') && Whole(steps) && AllSaid(net, steps, c) == [Broadcast(e).value]
    ensures c in net'.clients
    ensures net'.clients[c] == net.clients[c].(inflight := net.clients[c].inflight + [Broadcast(e).value])
  {
    hide Broadcast, Changed;
    var q, a := Broadcast(e).value, ChangeFor(e);
    hide ChangeFor;
    var net1 := Distribution.After(net, a);
    assert net1.clients[c] == net.clients[c] && q in net1.announced;
    var b := Tell(c, q);
    net' := Distribution.After(net1, b);
    steps := [a, b];
    assert steps[1..] == [b] && [b][1..] == [];
    assert AllSaid(net1, [b], c) == [q] + AllSaid(net', [b][1..], c);
    assert Run(net1, [b], net') by { assert Run(net', [b][1..], net'); }
  }

  ghost predicate ToldInOrder(events: seq<Event>, net: Net, steps: Trace, net': Net, c: string) {
    Complete(net, steps, net', c) && AllSaid(net, steps, c) == Broadcasts(events)
  }

  // Any order of the broadcasts is one in which the listener's goroutines can apply them, though
  // they are told in order.
  lemma SomeRunApplies(events: seq<Event>, c: string, ps: seq<Message>) returns (steps: Trace, net': Net)
    requires Reordered(ps, Broadcasts(events))
    ensures ToldInOrder(events, Start(c), steps, net', c) && net'.clients[c].policies == ApplyAll(map[], ps)
  {
    var mid, more;
    steps, mid := AllInFlight(events, c);
    more, net' := EveryOrder(mid, c, ps);
    assert StartsEmpty(Start(c), c);
    WholeAppend(steps, more);
    NothingMore(Broadcasts(events));
    hide Run, AllSaid, Broadcasts, Start, ApplyAll, Whole;
    SaidAppend(Start(c), steps, mid, more, c);
    RunAppend(Start(c), steps, mid, more, net');
    steps := steps + more;
  }

  lemma NothingMore(qs: seq<Message>)
    ensures qs + [] == qs
  {}

  // Every complete delivery of the events' broadcasts, told in order and applied as the
  // goroutines happen to run, leaves the sidecar's map if and only if no two of them race.
  lemma SidecarsAgreeInAnyOrderIff(events: seq<Event>, c: string)
    ensures (forall net, steps, net' :: ToldInOrder(events, net, steps, net', c) ==>
        net'.clients[c].policies == Sidecar(events))
      <==> NoRace(Broadcasts(events))
  {
    hide Run, AllSaid, Broadcasts, ApplyAll, NoRace, Sidecar, Start;
    if NoRace(Broadcasts(events)) {
      forall net, steps, net' | ToldInOrder(events, net, steps, net', c)
        ensures net'.clients[c].policies == Sidecar(events)
      {
        AnyOrderServes(events, net, steps, net', c);
      }
    } else {
      OrderIrrelevantIff(map[], Broadcasts(events));
      var ps :| Reordered(ps, Broadcasts(events)) && ApplyAll(map[], ps) != ApplyAll(map[], Broadcasts(events));
      var steps, net' := SomeRunApplies(events, c, ps);
      SidecarAppliesBroadcasts(events);
    }
  }

  // Two versions in quick succession: the standalone server serves the second, and some run
  // leaves a sidecar with the first, for good.
  lemma SidecarKeepsTheOld(c: string) returns (steps: Trace, net': Net)
    ensures var events := [Event("p", Found(ALLOWS)), Event("p", Found(ABSTAINS))];
      && ToldInOrder(events, Start(c), steps, net', c)
      && Lookup(net'.clients[c].policies, "p") == CompiledMessage(Sent(ALLOWS))
      && Lookup(Sidecar(events), "p") == CompiledMessage(Sent(ABSTAINS))
      && CompiledMessage(Sent(ALLOWS)) != CompiledMessage(Sent(ABSTAINS))
  {
    var events := [Event("p", Found(ALLOWS)), Event("p", Found(ABSTAINS))];
    var v1, v2 := Sent(ALLOWS), Sent(ABSTAINS);
    hide Sent;
    assert events[..1] == [Event("p", Found(ALLOWS))] && events[..1][..0] == [];
    assert Broadcasts(events[..1]) == Broadcasts(events[..1][..0]) + [v1];
    assert Broadcasts(events) == [v1, v2];
    hide Broadcasts, ApplyAll, Racing, Sidecar;
    ReversedStores(map[]);
    SwappedPair(v1, v2);
    SidecarAppliesBroadcasts(events);
    steps, net' := SomeRunApplies(events, c, [v2, v1]);
    RacingDiffer(v1, v2);
  }

  lemma SwappedPair(a: Message, b: Message)
    ensures Reordered([b, a], [a, b])
  {
    assert [a, b] == [a] + [b] && [b, a] == [b] + [a];
  }

  lemma RacingDiffer(a: Message, b: Message)
    requires Racing(a, b)
    ensures CompiledMessage(a) != CompiledMessage(b)
  {}

  // ---- Sidecars that connect later -----------------------------------------------------

  // The sender's map after a sequence of reconcile events.
  ghost function MeshRun(events: seq<Event>): map<string, Message> {
    if events == [] then map[] else MeshStep(MeshRun(events[..|events| - 1]), events[|events| - 1])
  }

  // What the sender holds under a name is the last HTTP version fetched; if that version compiles
  // it is the surviving one.
  ghost predicate HoldsLatest(m: map<string, Message>, h: map<string, Policy>, n: string) {
    && (n !in m ==> n !in h)
    && (n in m && CompiledMessage(m[n]).Some? ==> n in h && m[n] == Sent(h[n]))
  }

  lemma {:induction false} MeshHoldsLatest(events: seq<Event>, n: string)
    requires Proper(events)
    ensures HoldsLatest(MeshRun(events), SurvivingHttp(events), n)
    decreases |events|
  {
    hide Accepted, Program, Received;
    if events != [] {
      var front, e := events[..|events| - 1], events[|events| - 1];
      assert forall i :: 0 <= i < |front| ==> front[i] == events[i];
      MeshHoldsLatest(front, n);
      if e.fetched.Found? { CompilesAfterTravel(e.fetched.policy); }
    }
  }

  // A name whose last HTTP version does not compile, while an earlier one does.
  ghost predicate Broken(events: seq<Event>, n: string) {
    n in SurvivingHttp(events) && n in MeshRun(events) && CompiledMessage(MeshRun(events)[n]).None?
  }

  // A snapshot has under a name what a client connected from the start has, exactly when the name
  // is not broken; otherwise it has nothing.
  lemma CompiledMeshMap(events: seq<Event>, n: string)
    requires Proper(events)
    ensures Lookup(CompiledMap(MeshRun(events)), n) == Lookup(Sidecar(events), n) <==> !Broken(events, n)
    ensures Broken(events, n) ==> n in Sidecar(events) && n !in CompiledMap(MeshRun(events))
  {
    hide Accepted, Program, Received, Sent, MeshRun, SurvivingHttp, Sidecar;
    SidecarIsCarried(events);
    MeshHoldsLatest(events, n);
    if n in MeshRun(events) && CompiledMessage(MeshRun(events)[n]).Some? {
      CarriedEntry(MeshRun(events)[n], SurvivingHttp(events)[n]);
    }
  }

  lemma CarriedEntry(q: Message, p: Policy)
    requires q == Sent(p) && CompiledMessage(q).Some?
    ensures CompiledMessage(q).value == Program(Received(Sent(p)))
  {
    hide Accepted, Program, Received;
  }

  // The names a client that took its snapshot between the two misses: broken before, and neither
  // deleted nor stored anew in a version that compiles after.
  ghost function Missed(before: seq<Event>, after: seq<Event>): set<string> {
    set n | n in SurvivingHttp(before) && Broken(before, n) && Final(Broadcasts(after), n).None?
  }

  lemma {:induction false} BroadcastsAppend(a: seq<Event>, b: seq<Event>)
    ensures Broadcasts(a + b) == Broadcasts(a) + Broadcasts(b)
    decreases |b|
  {
    hide Broadcast;
    if b == [] {
      assert a + b == a && Broadcasts(a) + [] == Broadcasts(a);
    } else {
      assert (a + b)[..|a + b| - 1] == a + b[..|b| - 1];
      BroadcastsAppend(a, b[..|b| - 1]);
    }
  }

  lemma LateLookup(before: seq<Event>, after: seq<Event>, said: seq<Message>, n: string)
    requires Proper(before) && ToldOf(said, after)
    ensures var mine, all := ApplyAll(CompiledMap(MeshRun(before)), said), Sidecar(before + after);
      if n in Missed(before, after) then Lookup(mine, n) == None && n in all else Lookup(mine, n) == Lookup(all, n)
  {
    hide Accepted, Program, Received, Sent, MeshRun, SurvivingHttp, Sidecar, ApplyAll, Final, CompiledMap, Broadcasts;
    BroadcastsAppend(before, after);
    SidecarAppliesBroadcasts(before);
    SidecarAppliesBroadcasts(before + after);
    ApplyAppend(map[], Broadcasts(before), Broadcasts(after));
    FinalDecides(CompiledMap(MeshRun(before)), said, n);
    FinalDecides(Sidecar(before), Broadcasts(after), n);
    CompiledMeshMap(before, n);
  }

  // A client whose snapshot is the control plane's map before, told of what comes after: once
  // idle it has the map of one connected from the start without the names it missed. It has the
  // same map exactly when it missed none, and gives a request the same answer exactly when the
  // policy that answers is not among them, or the next one in line has the very same outcome.
  lemma LateSidecarsServe(
    before: seq<Event>, after: seq<Event>, net: Net, steps: Trace, net': Net, c: string, q: Request)
    requires Proper(before)
    requires c in net.clients && Settled(net.clients[c]) == CompiledMap(MeshRun(before))
    requires HarmlessRun(net, steps, net') && Idle(net', c) && ToldOf(AllSaid(net, steps, c), after)
    ensures var mine, all, missed := net'.clients[c].policies, Sidecar(before + after), Missed(before, after);
      && mine == all - missed
      && (mine == all <==> missed == {})
      && (Decide(View(mine), q) == Decide(View(all), q) <==>
          var ds := Deciders(all, q);
          || ds == {} || Least(ds) !in missed
          || (ds - missed != {} && OutcomeOf(all[Least(ds - missed)], q) == OutcomeOf(all[Least(ds)], q)))
  {
    EmptySettles(net'.clients[c]);
    hide Settled, HarmlessRun, ApplyAll, Missed, MeshRun, Sidecar, OutcomeOf, View, Decide, Deciders, CompiledMap;
    hide AllSaid;
    SettledFollows(net, steps, net', c);
    var mine, all, missed := net'.clients[c].policies, Sidecar(before + after), Missed(before, after);
    forall n
      ensures if n in missed then Lookup(mine, n) == None && n in all else Lookup(mine, n) == Lookup(all, n)
    {
      LateLookup(before, after, AllSaid(net, steps, c), n);
    }
    forall n ensures Lookup(mine, n) == Lookup(all - missed, n) {}
    SameLookups(mine, all - missed);
    if missed == {} { assert all - missed == all; }
    if n :| n in missed { assert n in all && n !in mine; }
    RemovingPolicies(all, missed, q);
  }

  // A first version that compiles, a second that does not, and then a client connects: it has
  // nothing where the standalone server and every earlier client serve the first.
  const BROKEN := Policy("p", MODE_HTTP, Some(FAIL), [], [], [Validation(IntLit(0), "", None, "")])

  const FIRST := [Event("p", Found(ALLOWS))]
  const BOTH := [Event("p", Found(ALLOWS)), Event("p", Found(BROKEN))]

  lemma OneCompiles()
    ensures Accepted(ALLOWS) && !Accepted(BROKEN) && CompiledMessage(Sent(BROKEN)).None?
  {
    assert RuleOk(ALLOWS, ALLOWS.validations[0]);
    assert !RuleOk(BROKEN, BROKEN.validations[0]);
    CompilesAfterTravel(BROKEN);
  }

  lemma AfterBoth()
    ensures SurvivingHttp(BOTH) == map["p" := ALLOWS]
    ensures Standalone(BOTH) == map["/p" := Program(ALLOWS)]
    ensures MeshRun(BOTH) == map["p" := Sent(BROKEN)]
  {
    OneCompiles();
    hide Accepted, Program, Sent;
    assert BOTH[..1] == FIRST && FIRST[..0] == [] && "/" + "p" == "/p";
    assert SurvivingHttp(FIRST) == map["p" := ALLOWS];
    assert Standalone(FIRST) == StandaloneStep(map[], FIRST[0]) == map["/p" := Program(ALLOWS)];
    assert MeshRun(FIRST) == MeshStep(map[], FIRST[0]) == map["p" := Sent(ALLOWS)];
    assert MeshRun(BOTH) == MeshStep(MeshRun(FIRST), BOTH[1]);
  }

  lemma LateSidecarHasNothing()
    ensures Proper(BOTH) && Missed(BOTH, []) == {"p"}
    ensures "p" !in CompiledMap(MeshRun(BOTH)) && "p" in Sidecar(BOTH)
    ensures "/p" in Standalone(BOTH) && Standalone(BOTH)["/p"] == Program(ALLOWS)
  {
    AfterBoth();
    OneCompiles();
    hide Accepted, Program, Sent, Received, MeshRun, SurvivingHttp, Standalone;
    assert Broken(BOTH, "p");
    CompiledMeshMap(BOTH, "p");
  }

  // ---- The answers as written ----------------------------------------------------------

  // The answer said of policies as written: the least name whose reference outcome is not to
  // abstain.
  ghost function ReferenceDeciders(s: map<string, Policy>, q: Request): set<string> {
    set n | n in s && ReferenceOutcome(s[n], q) != Abstain
  }

  ghost function ReferenceAnswer(s: map<string, Policy>, q: Request): Answer {
    var ns := ReferenceDeciders(s, q);
    if ns == {} then NoDecision else AnswerOf(ReferenceOutcome(s[Least(ns)], q))
  }

  lemma {:induction false} SurvivorsAreAccepted(events: seq<Event>)
    ensures forall n :: n in Surviving(events) ==> Accepted(Surviving(events)[n])
    ensures forall n :: n in SurvivingHttp(events) ==> Accepted(SurvivingHttp(events)[n])
    decreases |events|
  {
    hide Accepted;
    if events != [] { SurvivorsAreAccepted(events[..|events| - 1]); }
  }

  // On this request the surviving policies change no response that a variable remembers.
  ghost predicate AllQuiet(s: map<string, Policy>, q: Request) {
    forall n :: n in s ==> UniqueNames(s[n].variables) && QuietRun(Program(s[n]), q)
  }

  // After any events, the standalone server answers a request as the surviving policies read.
  lemma StandaloneAnswersAsWritten(events: seq<Event>, q: Request)
    requires Proper(events) && AllQuiet(Surviving(events), q)
    ensures Decide(View(Standalone(events)), q) == ReferenceAnswer(Surviving(events), q)
  {
    hide Accepted, Program, Surviving, SurvivingHttp, Standalone, Sidecar, View, Decide, OutcomeOf;
    hide ReferenceOutcome, UniqueNames, QuietRun;
    SurvivorsAreAccepted(events);
    SidecarAnswer(events, q);
    var s := Surviving(events);
    forall n | n in s ensures OutcomeOf(Direct(s)[n], q) == ReferenceOutcome(s[n], q) { PolicyDecides(s[n], q); }
    assert Deciders(Direct(s), q) == ReferenceDeciders(s, q);
  }

  // The policies that travel with an unset failure policy and err on the request as written.
  ghost function SilencedAsWritten(s: map<string, Policy>, q: Request): set<string> {
    set n | n in s && s[n].failurePolicy.None? && ErrsAsWritten(s[n], q)
  }

  // A sidecar answers as the surviving HTTP versions read, without those.
  lemma SidecarAnswersAsWritten(events: seq<Event>, q: Request)
    requires Proper(events) && AllQuiet(SurvivingHttp(events), q)
    ensures Silenced(SurvivingHttp(events), q) == SilencedAsWritten(SurvivingHttp(events), q)
    ensures Decide(View(Sidecar(events)), q) ==
      ReferenceAnswer(SurvivingHttp(events) - SilencedAsWritten(SurvivingHttp(events), q), q)
  {
    hide Accepted, Program, Surviving, SurvivingHttp, Standalone, Sidecar, View, Decide, OutcomeOf;
    hide ReferenceOutcome, UniqueNames, QuietRun;
    hide RunPolicy, ErrsAsWritten;
    SurvivorsAreAccepted(events);
    SidecarAnswer(events, q);
    var s := SurvivingHttp(events);
    forall n | n in s
      ensures OutcomeOf(Direct(s)[n], q) == ReferenceOutcome(s[n], q)
      ensures RunPolicy(Program(s[n]), q).Failed? <==> ErrsAsWritten(s[n], q)
    {
      PolicyDecides(s[n], q);
      ErrorsAsWritten(s[n], q);
    }
    var out := SilencedAsWritten(s, q);
    assert Silenced(s, q) == out;
    assert Deciders(Direct(s) - out, q) == ReferenceDeciders(s - out, q);
  }

  // ---- What is written -----------------------------------------------------------------

  // The surviving policy n answers with the response of its rule j, and every policy whose name
  // comes before says nothing: the standalone server writes that very response.
  lemma StandaloneWrites(events: seq<Event>, q: Request, n: string, j: nat, r: Resp)
    requires Proper(events) && AllQuiet(Surviving(events), q)
    requires n in Surviving(events) && AnswersWith(Surviving(events)[n], j, r, q)
    requires forall k :: k in Surviving(events) && Before(k, n) ==> Silent(Surviving(events)[k], q)
    ensures Decide(View(Standalone(events)), q) == Written(r)
  {
    hide Accepted, Program, Surviving, SurvivingHttp, Standalone, Sidecar, View, Decide, OutcomeOf, UniqueNames;
    hide QuietRun, Silent, AnswersWith, Before, Reaches;
    SurvivorsAreAccepted(events);
    StandaloneIsDirect(events);
    var s := Surviving(events);
    ViewIgnoresPrefix(Direct(s), Standalone(events), "/");
    AnswersReach(s[n], j, r, q);
    RuleDecides(s[n], j, q);
    forall k | k in s && Before(k, n) ensures OutcomeOf(Direct(s)[k], q) == Abstain { SilentAbstains(s[k], q); }
    FirstNameAnswers(Direct(s), n, q);
  }

  lemma AnswersReach(p: Policy, j: nat, r: Resp, q: Request)
    requires AnswersWith(p, j, r, q)
    ensures Reaches(p, j, q)
  {}

  // A sidecar writes it likewise, where a policy with its failure policy unset is also silent when
  // it errs.
  lemma SidecarWrites(events: seq<Event>, q: Request, n: string, j: nat, r: Resp)
    requires Proper(events) && AllQuiet(SurvivingHttp(events), q)
    requires n in SurvivingHttp(events) && AnswersWith(SurvivingHttp(events)[n], j, r, q)
    requires forall k :: k in SurvivingHttp(events) && Before(k, n) ==>
      Silent(SurvivingHttp(events)[k], q) || k in SilencedAsWritten(SurvivingHttp(events), q)
    ensures Decide(View(Sidecar(events)), q) == Written(r)
  {
    hide Accepted, Program, Surviving, SurvivingHttp, Standalone, Sidecar, View, Decide, OutcomeOf, UniqueNames;
    hide QuietRun, Silent, AnswersWith, Before, Reaches, Received, Sent, RunPolicy, ErrsAsWritten;
    SurvivorsAreAccepted(events);
    SidecarIsCarried(events);
    var h := SurvivingHttp(events);
    AnswersReach(h[n], j, r, q);
    RuleDecides(h[n], j, q);
    AnsweredIsNoError(h[n], j, r, q);
    CarriedOutcome(h[n], q);
    forall k | k in h && Before(k, n) ensures OutcomeOf(Carried(h)[k], q) == Abstain {
      CarriedOutcome(h[k], q);
      ErrorsAsWritten(h[k], q);
      if Silent(h[k], q) { SilentAbstains(h[k], q); }
    }
    FirstNameAnswers(Carried(h), n, q);
  }

  lemma AnsweredIsNoError(p: Policy, j: nat, r: Resp, q: Request)
    requires Readable(p) && QuietRun(Program(p), q) && AnswersWith(p, j, r, q)
    ensures !RunPolicy(Program(p), q).Failed?
  {
    RuleDecides(p, j, q);
    hide Program, RunPolicy, Readable, QuietRun, Reaches;
    assert OutcomeOf(Program(p), q) == Respond(r);
  }
}
