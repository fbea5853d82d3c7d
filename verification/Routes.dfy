/** Two routes to one decision. Standalone: reconcile, compile, sort on "/name". Sidecar:
    reconcile, convert, store, send, convert back, compile, sort on the name. */
module Routes {
  import opened Cel
  import opened Policies
  import opened Compiler
  import opened Engine
  import opened Order
  import opened Handler
  import opened Listener
  import opened Reconcilers

  // The standalone map after a sequence of reconcile events.
  ghost function Standalone(events: seq<Event>): PolicyMap {
    if events == [] then map[] else StandaloneStep(Standalone(events[..|events| - 1]), events[|events| - 1])
  }

  // The map of a listener connected from the start, each broadcast applied in turn.
  ghost function Sidecar(events: seq<Event>): PolicyMap {
    if events == [] then map[]
    else
      var m, q := Sidecar(events[..|events| - 1]), Broadcast(events[|events| - 1]);
      if q.Some? then ApplyMessage(m, q.value) else m
  }

  // The policy that is fetched has the name asked for.
  ghost predicate Proper(events: seq<Event>) {
    forall i :: 0 <= i < |events| && events[i].fetched.Found? ==> events[i].fetched.policy.name == events[i].name
  }

  ghost predicate AllHttp(events: seq<Event>) {
    forall i :: 0 <= i < |events| && events[i].fetched.Found? ==> events[i].fetched.policy.mode == MODE_HTTP
  }

  // For each name, the last accepted version since its last deletion.
  ghost function Surviving(events: seq<Event>): map<string, Policy> {
    if events == [] then map[]
    else
      var m, e := Surviving(events[..|events| - 1]), events[|events| - 1];
      match e.fetched
      case NotFound => m - {e.name}
      case Unavailable => m
      case Found(p) => if Accepted(p) then m[e.name := p] else m
  }

  // The same among the HTTP versions, which are all that the mesh reconciler passes on.
  ghost function SurvivingHttp(events: seq<Event>): map<string, Policy> {
    if events == [] then map[]
    else
      var m, e := SurvivingHttp(events[..|events| - 1]), events[|events| - 1];
      match e.fetched
      case NotFound => m - {e.name}
      case Unavailable => m
      case Found(p) => if Accepted(p) && p.mode == MODE_HTTP then m[e.name := p] else m
  }

  // Event i fetched an accepted version of n that counts, and nothing later deleted or replaced it.
  ghost predicate LastsFrom(events: seq<Event>, i: nat, n: string, httpOnly: bool) {
    && i < |events| && Stores(events[i], n, httpOnly)
    && forall j :: i < j < |events| ==> !Stores(events[j], n, httpOnly) && events[j] != Event(n, NotFound)
  }

  ghost predicate Stores(e: Event, n: string, httpOnly: bool) {
    e.name == n && e.fetched.Found? && Accepted(e.fetched.policy) && (httpOnly ==> e.fetched.policy.mode == "HTTP")
  }

  ghost function Survivors(events: seq<Event>, httpOnly: bool): map<string, Policy> {
    if httpOnly then SurvivingHttp(events) else Surviving(events)
  }

  lemma {:induction false} SurvivingIs(events: seq<Event>, n: string, httpOnly: bool)
    ensures n in Survivors(events, httpOnly) <==> exists i: nat :: LastsFrom(events, i, n, httpOnly)
    ensures forall i: nat :: LastsFrom(events, i, n, httpOnly) ==>
      n in Survivors(events, httpOnly) && Survivors(events, httpOnly)[n] == events[i].fetched.policy
    decreases |events|
  {
    if events != [] {
      var k := |events| - 1;
      SurvivingIs(events[..k], n, httpOnly);
      SurvivorsStep(events, n, httpOnly);
      LastingStep(events, n, httpOnly);
      hide Survivors, Stores, LastsFrom;
      if Stores(events[k], n, httpOnly) {
        assert LastsFrom(events, k, n, httpOnly);
      } else if events[k] != Event(n, NotFound) {
        forall i: nat | LastsFrom(events[..k], i, n, httpOnly)
          ensures i < k && events[..k][i] == events[i]
        {
          LastsInside(events[..k], i, n, httpOnly);
        }
        assert forall i: nat :: LastsFrom(events, i, n, httpOnly) <==> LastsFrom(events[..k], i, n, httpOnly);
      }
    }
  }

  lemma LastsInside(events: seq<Event>, i: nat, n: string, httpOnly: bool)
    requires LastsFrom(events, i, n, httpOnly)
    ensures i < |events|
  {}

  lemma SurvivorsStep(events: seq<Event>, n: string, httpOnly: bool)
    requires events != []
    ensures var k := |events| - 1;
      var before, after := Survivors(events[..k], httpOnly), Survivors(events, httpOnly);
      if Stores(events[k], n, httpOnly) then n in after && after[n] == events[k].fetched.policy
      else if events[k] == Event(n, NotFound) then n !in after
      else (n in after <==> n in before) && (n in after ==> after[n] == before[n])
  {
    hide Accepted;
  }

  lemma LastingStep(events: seq<Event>, n: string, httpOnly: bool)
    requires events != []
    ensures var k := |events| - 1;
      if Stores(events[k], n, httpOnly) then forall i: nat :: LastsFrom(events, i, n, httpOnly) <==> i == k
      else if events[k] == Event(n, NotFound) then forall i: nat :: !LastsFrom(events, i, n, httpOnly)
      else forall i: nat :: LastsFrom(events, i, n, httpOnly) <==> LastsFrom(events[..k], i, n, httpOnly)
  {
    hide Stores;
    var k := |events| - 1;
    forall i: nat | !Stores(events[k], n, httpOnly) && events[k] != Event(n, NotFound)
      ensures LastsFrom(events, i, n, httpOnly) <==> LastsFrom(events[..k], i, n, httpOnly)
    {
      assert forall j :: 0 <= j < k ==> events[..k][j] == events[j];
    }
  }

  // The two differ exactly under the names whose surviving version is in another mode.
  lemma {:induction false} HttpSurvives(events: seq<Event>, n: string)
    ensures var s, h := Surviving(events), SurvivingHttp(events);
      && (n in h ==> n in s && h[n].mode == MODE_HTTP)
      && (n in s ==> ((n in h && h[n] == s[n]) <==> s[n].mode == MODE_HTTP))
    decreases |events|
  {
    hide Accepted;
    if events != [] { HttpSurvives(events[..|events| - 1], n); }
  }

  lemma {:induction false} AllHttpSurvive(events: seq<Event>)
    requires AllHttp(events)
    ensures SurvivingHttp(events) == Surviving(events)
    decreases |events|
  {
    hide Accepted;
    if events != [] {
      var front := events[..|events| - 1];
      assert forall i :: 0 <= i < |front| ==> front[i] == events[i];
      AllHttpSurvive(front);
    }
  }

  ghost function Direct(s: map<string, Policy>): PolicyMap { map n | n in s :: Program(s[n]) }

  ghost function Carried(s: map<string, Policy>): PolicyMap { map n | n in s :: Program(Received(Sent(s[n]))) }

  // A policy that has travelled compiles exactly when it did before, and to the same program
  // but for an unset failure policy.
  lemma CompilesAfterTravel(p: Policy)
    ensures Accepted(Received(Sent(p))) <==> Accepted(p)
    ensures Program(Received(Sent(p))) == Program(p).(failurePolicy := WireFailurePolicy(p))
  {
    hide Check, EnvAfter;
    var r := Received(Sent(p));
    assert |r.validations| == |p.validations|;
    assert forall i :: 0 <= i < |p.validations| ==> r.validations[i].expression == p.validations[i].expression;
    assert forall i :: 0 <= i < |p.validations| ==> (RuleOk(r, r.validations[i]) <==> RuleOk(p, p.validations[i]));
    assert Rules(r.validations) == Rules(p.validations);
  }

  lemma {:induction false} StandaloneIsDirect(events: seq<Event>)
    ensures Renamed(Direct(Surviving(events)), Standalone(events), "/")
    decreases |events|
  {
    hide Accepted, Program, Renamed, Direct;
    if events == [] {
      NothingRenamed();
    } else {
      var front, e := events[..|events| - 1], events[|events| - 1];
      StandaloneIsDirect(front);
      StandaloneStepIsDirect(Surviving(front), Standalone(front), e);
    }
  }

  lemma NothingRenamed()
    ensures Renamed(Direct(map[]), map[], "/")
  {}

  lemma StandaloneStepIsDirect(s: map<string, Policy>, m: PolicyMap, e: Event)
    requires Renamed(Direct(s), m, "/")
    ensures Renamed(Direct(s - {e.name}), m - {KeyOf(e)}, "/")
    ensures e.fetched.Found? ==>
      Renamed(Direct(s[e.name := e.fetched.policy]), m[KeyOf(e) := Program(e.fetched.policy)], "/")
  {
    hide Program, Renamed;
    assert Direct(s - {e.name}) == Direct(s) - {e.name};
    RenamedStep(Direct(s), m, e.name);
    if e.fetched.Found? {
      var p := e.fetched.policy;
      assert Direct(s[e.name := p]) == Direct(s)[e.name := Program(p)];
      RenamedUpdate(Direct(s), m, e.name, Program(p));
    }
  }

  lemma RenamedStep<V>(m: map<string, V>, r: map<string, V>, n: string)
    requires Renamed(m, r, "/")
    ensures Renamed(m - {n}, r - {"/" + n}, "/")
  {
    forall k | k in m && k != n ensures "/" + k != "/" + n {
      if "/" + k == "/" + n { PrefixInjective("/", k, n); }
    }
    forall j | j in r - {"/" + n} ensures exists k :: k in m - {n} && j == "/" + k {
      var k :| k in m && j == "/" + k;
      assert k in m - {n};
    }
  }

  lemma RenamedUpdate<V>(m: map<string, V>, r: map<string, V>, n: string, v: V)
    requires Renamed(m, r, "/")
    ensures Renamed(m[n := v], r["/" + n := v], "/")
  {
    forall k | k in m && k != n ensures "/" + k != "/" + n {
      if "/" + k == "/" + n { PrefixInjective("/", k, n); }
    }
    var m', r' := m[n := v], r["/" + n := v];
    forall j | j in r' ensures exists k :: k in m' && j == "/" + k {
      if j == "/" + n {
        assert n in m';
      } else {
        var k :| k in m && j == "/" + k;
        assert k in m';
      }
    }
  }

  lemma {:induction false} SidecarIsCarried(events: seq<Event>)
    requires Proper(events)
    ensures Sidecar(events) == Carried(SurvivingHttp(events))
    decreases |events|
  {
    hide Accepted, Program, Received, Sent;
    if events != [] {
      var front, e := events[..|events| - 1], events[|events| - 1];
      assert forall i :: 0 <= i < |front| ==> front[i] == events[i];
      SidecarIsCarried(front);
      var s := SurvivingHttp(front);
      assert Carried(s - {e.name}) == Carried(s) - {e.name};
      if e.fetched.Found? {
        var p := e.fetched.policy;
        CompilesAfterTravel(p);
        assert Carried(s[e.name := p]) == Carried(s)[e.name := Program(Received(Sent(p)))];
      }
    }
  }

  // What a version that has travelled compiles to.
  ghost function CarriedProgram(p: Policy): CompiledPolicy { Program(p).(failurePolicy := WireFailurePolicy(p)) }

  // The condition for the two routes to serve the same: the same names survive, each with a
  // version that compiles to what its last HTTP version compiles to after travelling.
  ghost predicate RoutesMeet(s: map<string, Policy>, h: map<string, Policy>) {
    s.Keys == h.Keys && forall n :: n in s ==> Program(s[n]) == CarriedProgram(h[n])
  }

  lemma MeetIff(s: map<string, Policy>, h: map<string, Policy>)
    ensures Direct(s) == Carried(h) <==> RoutesMeet(s, h)
  {
    hide Program, Received, Sent, CarriedProgram;
    forall n | n in h ensures Carried(h)[n] == CarriedProgram(h[n]) { CarriedIs(h[n]); }
    if Direct(s) == Carried(h) {
      assert Direct(s).Keys == s.Keys && Carried(h).Keys == h.Keys;
      forall n | n in s ensures Program(s[n]) == CarriedProgram(h[n]) {
        assert Direct(s)[n] == Carried(h)[n];
      }
    } else if RoutesMeet(s, h) {
      assert forall n :: n in s ==> Direct(s)[n] == Carried(h)[n];
    }
  }

  lemma CarriedIs(p: Policy)
    ensures Program(Received(Sent(p))) == CarriedProgram(p)
  {
    CompilesAfterTravel(p);
  }

  lemma RenamedUnique<V>(m: map<string, V>, k: map<string, V>, r: map<string, V>)
    requires Renamed(m, r, "/") && Renamed(k, r, "/")
    ensures m == k
  {
    forall n | n in m ensures n in k && k[n] == m[n] { RenamedOnce(m, k, r, n); }
    forall n | n in k ensures n in m { RenamedOnce(k, m, r, n); }
    assert m.Keys == k.Keys;
  }

  lemma RenamedOnce<V>(m: map<string, V>, k: map<string, V>, r: map<string, V>, n: string)
    requires Renamed(m, r, "/") && Renamed(k, r, "/") && n in m
    ensures n in k && k[n] == m[n]
  {
    assert "/" + n in r;
    var i :| i in k && "/" + n == "/" + i;
    PrefixInjective("/", n, i);
  }

  // After every sequence of events, whatever the modes: the standalone map is the sidecar's under
  // "/name" exactly when the routes meet. Then both serve the same list; and if the same names
  // survive, only then.
  lemma RoutesServeTheSamePolicies(events: seq<Event>)
    requires Proper(events)
    ensures var s, h := Surviving(events), SurvivingHttp(events);
      && (Renamed(Sidecar(events), Standalone(events), "/") <==> RoutesMeet(s, h))
      && (RoutesMeet(s, h) ==> View(Standalone(events)) == View(Sidecar(events)))
      && (s.Keys == h.Keys ==> (View(Standalone(events)) == View(Sidecar(events)) <==> RoutesMeet(s, h)))
  {
    hide Program, Accepted, Received, Sent, Surviving, SurvivingHttp, Standalone, Sidecar, Renamed, RoutesMeet, View;
    var s, h := Surviving(events), SurvivingHttp(events);
    StandaloneIsDirect(events);
    SidecarIsCarried(events);
    MeetIff(s, h);
    ViewIgnoresPrefix(Direct(s), Standalone(events), "/");
    if Renamed(Sidecar(events), Standalone(events), "/") {
      RenamedUnique(Sidecar(events), Direct(s), Standalone(events));
    }
    if s.Keys == h.Keys {
      assert Direct(s).Keys == s.Keys && Carried(h).Keys == h.Keys;
      ViewDeterminesMap(Direct(s), Carried(h));
    }
  }

  // With HTTP policies only, both routes serve the same list exactly when no surviving policy
  // leaves its failure policy unset.
  lemma HttpRoutesServeTheSame(events: seq<Event>)
    requires Proper(events) && AllHttp(events)
    ensures View(Standalone(events)) == View(Sidecar(events)) <==>
      forall n :: n in Surviving(events) ==> Surviving(events)[n].failurePolicy.Some?
  {
    hide Program, Accepted, Surviving, SurvivingHttp, Standalone, Sidecar, View, Renamed;
    AllHttpSurvive(events);
    RoutesServeTheSamePolicies(events);
    var s := Surviving(events);
    forall n | n in s ensures Program(s[n]) == CarriedProgram(s[n]) <==> s[n].failurePolicy.Some? {
      ProgramFailurePolicy(s[n]);
    }
  }

  lemma ProgramFailurePolicy(p: Policy)
    ensures Program(p).failurePolicy == FailurePolicyOf(p)
  {}

  // The surviving policies without a failure policy that raise an error on the request.
  ghost function Silenced(s: map<string, Policy>, q: Request): set<string> {
    set n | n in s && s[n].failurePolicy.None? && RunPolicy(Program(s[n]), q).Failed?
  }

  // Both answers said of the surviving policies: the sidecar's without the silenced ones.
  lemma SidecarAnswer(events: seq<Event>, q: Request)
    requires Proper(events)
    ensures var s, h := Surviving(events), SurvivingHttp(events);
      && Decide(View(Sidecar(events)), q) == LeastDecides(Direct(h) - Silenced(h, q), q)
      && Decide(View(Standalone(events)), q) == LeastDecides(Direct(s), q)
  {
    hide Program, Accepted, Received, Sent, Surviving, SurvivingHttp, Standalone, Sidecar, View, Silenced, LeastDecides;
    StandaloneIsDirect(events);
    SidecarIsCarried(events);
    var s, h := Surviving(events), SurvivingHttp(events);
    ViewIgnoresPrefix(Direct(s), Standalone(events), "/");
    LeastNameDecides(Direct(s), q);
    LeastNameDecides(Carried(h), q);
    CarriedAnswer(h, q);
  }

  lemma CarriedAnswer(h: map<string, Policy>, q: Request)
    ensures Deciders(Carried(h), q) == Deciders(Direct(h), q) - Silenced(h, q)
    ensures Deciders(Direct(h) - Silenced(h, q), q) == Deciders(Direct(h), q) - Silenced(h, q)
    ensures LeastDecides(Carried(h), q) == LeastDecides(Direct(h) - Silenced(h, q), q)
  {
    hide Program, Accepted, Received, Sent, RunPolicy, OutcomeOf;
    forall n | n in h
      ensures OutcomeOf(Carried(h)[n], q) == if n in Silenced(h, q) then Abstain else OutcomeOf(Direct(h)[n], q)
    {
      CarriedOutcome(h[n], q);
    }
    var kept := Direct(h) - Silenced(h, q);
    assert Deciders(Carried(h), q) == Deciders(kept, q);
  }

  lemma CarriedOutcome(p: Policy, q: Request)
    ensures OutcomeOf(Program(Received(Sent(p))), q) ==
      if p.failurePolicy.None? && RunPolicy(Program(p), q).Failed? then Abstain else OutcomeOf(Program(p), q)
  {
    hide Program, Accepted, Received, Sent, RunPolicy;
    CompilesAfterTravel(p);
    ProgramFailurePolicy(p);
    var c := Program(p);
    RunIgnoresFailurePolicy(c, WireFailurePolicy(p), q);
  }

  lemma RunIgnoresFailurePolicy(p: CompiledPolicy, fp: string, q: Request)
    ensures RunPolicy(p.(failurePolicy := fp), q) == RunPolicy(p, q)
  {}

  // A request gets the same answer by both routes exactly when neither decides it, or the least
  // deciding surviving policy and the least deciding HTTP version that is not silenced have the
  // same outcome.
  lemma RoutesGiveTheSameAnswer(events: seq<Event>, q: Request)
    requires Proper(events)
    ensures var s, h := Surviving(events), SurvivingHttp(events);
      var a, b := Deciders(Direct(s), q), Deciders(Direct(h), q) - Silenced(h, q);
      Decide(View(Standalone(events)), q) == Decide(View(Sidecar(events)), q) <==>
        || (a == {} && b == {})
        || (a != {} && b != {} && OutcomeOf(Direct(s)[Least(a)], q) == OutcomeOf(Direct(h)[Least(b)], q))
  {
    hide Program, Accepted, RunPolicy, OutcomeOf, Surviving, SurvivingHttp, Standalone, Sidecar, View, Silenced, Decide;
    SidecarAnswer(events, q);
    var s, h := Surviving(events), SurvivingHttp(events);
    CarriedAnswer(h, q);
    LeastNameDecides(Direct(s), q);
    LeastNameDecides(Direct(h) - Silenced(h, q), q);
    AnswersAgreeIff(Direct(s), Direct(h) - Silenced(h, q), q);
  }

  // With HTTP policies only: exactly when no policy decides it in the standalone server, or the
  // one that answers is not silenced, or the next one in line that is not silenced happens to
  // have the very same outcome.
  lemma HttpRoutesGiveTheSameAnswer(events: seq<Event>, q: Request)
    requires Proper(events) && AllHttp(events)
    ensures var s := Surviving(events);
      var all := Deciders(Direct(s), q);
      var left := all - Silenced(s, q);
      Decide(View(Standalone(events)), q) == Decide(View(Sidecar(events)), q) <==>
        || all == {} || Least(all) !in Silenced(s, q)
        || (left != {} && OutcomeOf(Direct(s)[Least(left)], q) == OutcomeOf(Direct(s)[Least(all)], q))
  {
    hide Program, Accepted, RunPolicy, OutcomeOf, Surviving, SurvivingHttp, Standalone, Sidecar, View, Silenced, Decide;
    AllHttpSurvive(events);
    SidecarAnswer(events, q);
    var s := Surviving(events);
    LeastNameDecides(Direct(s), q);
    LeastNameDecides(Direct(s) - Silenced(s, q), q);
    RemovingPolicies(Direct(s), Silenced(s, q), q);
  }

  // One policy with its failure policy unset decides a request differently on the two routes
  // exactly when it raises an error on it.
  lemma UnsetFailurePolicy(p: Policy, q: Request)
    requires p.failurePolicy.None?
    ensures OutcomeOf(Program(p), q) == OutcomeOf(Program(Received(Sent(p))), q) <==> !RunPolicy(Program(p), q).Failed?
  {
    hide Accepted, Received, Sent, RunPolicy;
    CompilesAfterTravel(p);
    FailurePolicyMatters(Program(p), q);
  }

  // A policy that changes to another mode is replaced in the standalone map, while sidecars keep
  // serving its last HTTP version: under its name the routes then meet exactly when there is one,
  // and it compiles to the same.
  lemma ModeChangeParts(events: seq<Event>, n: string, p: Policy)
    requires Proper(events) && p.name == n && p.mode != MODE_HTTP && Accepted(p)
    ensures var later, h := events + [Event(n, Found(p))], SurvivingHttp(events);
      && Sidecar(later) == Sidecar(events)
      && "/" + n in Standalone(later) && Standalone(later)["/" + n] == Program(p)
      && ((n in Sidecar(later) && Sidecar(later)[n] == Standalone(later)["/" + n]) <==>
          (n in h && CarriedProgram(h[n]) == Program(p)))
  {
    hide Accepted, Program, Received, Sent, CarriedProgram, SurvivingHttp;
    var later, h := events + [Event(n, Found(p))], SurvivingHttp(events);
    assert later[..|later| - 1] == events;
    SidecarIsCarried(events);
    if n in h { CarriedIs(h[n]); }
  }
}
