/** The liveness monitor over whole runs (HealthCheck, registration and the flush loop of
    pkg/stream/sender/sender.go). `now` is the server's clock; heartbeats carry the client's. */
module Monitor {
  import opened Sender

  datatype Settings = Settings(flushInterval: int, maxInactive: int)

  // swept: when the last sweep ran.
  datatype State = State(now: int, swept: int, beats: map<string, int>, clients: set<string>)

  datatype Event = Tick(d: int) | Heartbeat(client: string, time: int) | Register(client: string) | Sweep

  // Time passes, but never beyond the next sweep.
  predicate Allowed(w: Settings, s: State, e: Event) {
    e.Tick? ==> e.d >= 0 && s.now + e.d <= s.swept + w.flushInterval
  }

  ghost function After(w: Settings, s: State, e: Event): State {
    match e
    case Tick(d) => s.(now := s.now + d)
    case Heartbeat(c, t) => s.(beats := Beat(s.beats, c, t))
    case Register(c) => s.(clients := s.clients + {c})
    case Sweep =>
      var out := Evicted(s.beats, s.now, w.maxInactive);
      s.(swept := s.now, beats := s.beats - out, clients := s.clients - out)
  }

  // The state after a run, and whether every step of it was allowed.
  ghost function RunTo(w: Settings, s: State, run: seq<Event>): State {
    if run == [] then s else After(w, RunTo(w, s, run[..|run| - 1]), run[|run| - 1])
  }

  ghost predicate Legal(w: Settings, s: State, run: seq<Event>) {
    run != [] ==>
      && Legal(w, s, run[..|run| - 1])
      && Allowed(w, RunTo(w, s, run[..|run| - 1]), run[|run| - 1])
  }

  // ---- What is recorded ----------------------------------------------------------------

  // The heartbeats of a client handled since it was last evicted.
  ghost function Since(w: Settings, s: State, run: seq<Event>, c: string): seq<int> {
    if run == [] then (if c in s.beats then [s.beats[c]] else [])
    else
      var front, e := run[..|run| - 1], run[|run| - 1];
      var before := Since(w, s, front, c);
      if e.Heartbeat? && e.client == c then before + [e.time]
      else if e.Sweep? && Inactive(RunTo(w, s, front).beats, c, RunTo(w, s, front).now, w.maxInactive) then []
      else before
  }

  ghost predicate IsMax(x: int, xs: seq<int>) { x in xs && forall y :: y in xs ==> y <= x }

  // The recorded time is the greatest heartbeat since the last eviction, in whatever order
  // the heartbeats arrived.
  lemma {:induction false} RecordsTheLatest(w: Settings, s: State, run: seq<Event>, c: string)
    ensures var beats := RunTo(w, s, run).beats;
      && (c in beats <==> Since(w, s, run, c) != [])
      && (c in beats ==> IsMax(beats[c], Since(w, s, run, c)))
    decreases |run|
  {
    if run != [] {
      var front, e := run[..|run| - 1], run[|run| - 1];
      RecordsTheLatest(w, s, front, c);
      var before := Since(w, s, front, c);
      if e.Heartbeat? && e.client == c {
        assert forall y :: y in before + [e.time] <==> y in before || y == e.time;
      }
    }
  }

  // A client with a handled heartbeat that is recent enough at a sweep survives the sweep.
  lemma RecentHeartbeatSurvives(w: Settings, s: State, run: seq<Event>, c: string, t: int)
    requires t in Since(w, s, run, c) && RunTo(w, s, run).now - t <= w.maxInactive
    ensures var before, after := RunTo(w, s, run), RunTo(w, s, run + [Sweep]);
      c in after.beats && after.beats[c] == before.beats[c] && (c in after.clients <==> c in before.clients)
  {
    RecordsTheLatest(w, s, run, c);
    assert (run + [Sweep])[..|run|] == run;
  }

  // Along a whole run: if at every sweep some handled heartbeat of c is recent enough, a
  // registered c stays registered.
  ghost predicate AlwaysRecent(w: Settings, s: State, run: seq<Event>, c: string) {
    forall n: nat :: n < |run| && run[n].Sweep? ==> RecentAt(w, s, run[..n], c)
  }

  ghost predicate RecentAt(w: Settings, s: State, run: seq<Event>, c: string) {
    exists t :: t in Since(w, s, run, c) && RunTo(w, s, run).now - t <= w.maxInactive
  }

  lemma {:induction false} NeverEvictedWhileBeating(w: Settings, s: State, run: seq<Event>, c: string)
    requires c in s.clients && AlwaysRecent(w, s, run, c)
    ensures c in RunTo(w, s, run).clients
    decreases |run|
  {
    if run != [] {
      var n := |run| - 1;
      var front := run[..n];
      forall i: nat | i < |front| && front[i].Sweep? ensures RecentAt(w, s, front[..i], c) {
        assert front[..i] == run[..i] && run[i].Sweep?;
      }
      NeverEvictedWhileBeating(w, s, front, c);
      if run[n].Sweep? {
        assert RecentAt(w, s, front, c);
        var t :| t in Since(w, s, front, c) && RunTo(w, s, front).now - t <= w.maxInactive;
        RecentHeartbeatSurvives(w, s, front, c, t);
        assert run == front + [Sweep];
      }
    }
  }

  // ---- Silent clients ------------------------------------------------------------------

  ghost predicate Silent(run: seq<Event>, c: string) {
    forall i :: 0 <= i < |run| ==> run[i] != Register(c) && !(run[i].Heartbeat? && run[i].client == c)
  }

  function Max(a: int, b: int): int { if a >= b then a else b }

  // Out of both maps, or still there with the recorded time it had and no sweep since has
  // found that time too old.
  ghost predicate GoneOrRecent(w: Settings, s: State, r: State, c: string, t: int) {
    || (c !in r.beats && c !in r.clients)
    || (c in r.beats && r.beats[c] == t && r.swept <= Max(t + w.maxInactive, s.now))
  }

  lemma {:induction false} SilentClientFades(w: Settings, s: State, run: seq<Event>, c: string, t: int)
    requires c in s.beats && s.beats[c] == t && Silent(run, c) && Legal(w, s, run)
    requires s.swept <= s.now <= s.swept + w.flushInterval
    ensures var r := RunTo(w, s, run);
      r.swept <= r.now <= r.swept + w.flushInterval && GoneOrRecent(w, s, r, c, t)
    decreases |run|
  {
    if run != [] {
      var front, e := run[..|run| - 1], run[|run| - 1];
      assert Silent(front, c) && run[|run| - 1] == e;
      SilentClientFades(w, s, front, c, t);
    }
  }

  // A client that falls silent is out of both maps once the clock has passed its recorded
  // heartbeat plus the allowed inactivity plus one flush interval; a heartbeat already too old
  // when it was handled keeps it for at most one flush interval more.
  lemma SilentClientLeaves(w: Settings, s: State, run: seq<Event>, c: string)
    requires c in s.beats && Silent(run, c) && Legal(w, s, run)
    requires s.swept <= s.now <= s.swept + w.flushInterval
    requires RunTo(w, s, run).now > Max(s.beats[c] + w.maxInactive, s.now) + w.flushInterval
    ensures c !in RunTo(w, s, run).beats && c !in RunTo(w, s, run).clients
  {
    SilentClientFades(w, s, run, c, s.beats[c]);
  }

  // The sweep only looks at recorded heartbeats: a client that registers and never sends one
  // stays connected for ever.
  lemma {:induction false} NeverBeatingNeverLeaves(w: Settings, s: State, run: seq<Event>, c: string)
    requires c in s.clients && c !in s.beats
    requires forall i :: 0 <= i < |run| ==> !(run[i].Heartbeat? && run[i].client == c)
    ensures c in RunTo(w, s, run).clients && c !in RunTo(w, s, run).beats
    decreases |run|
  {
    if run != [] {
      assert forall i :: 0 <= i < |run[..|run| - 1]| ==> run[..|run| - 1][i] == run[i];
      NeverBeatingNeverLeaves(w, s, run[..|run| - 1], c);
    }
  }

  // Heartbeats alone do not bring an evicted client back: until it registers again it is not
  // among the clients policies are sent to.
  lemma {:induction false} HeartbeatsDoNotReconnect(w: Settings, s: State, run: seq<Event>, c: string)
    requires c !in s.clients && forall i :: 0 <= i < |run| ==> run[i] != Register(c)
    ensures c !in RunTo(w, s, run).clients
    decreases |run|
  {
    if run != [] {
      assert forall i :: 0 <= i < |run[..|run| - 1]| ==> run[..|run| - 1][i] == run[i];
      HeartbeatsDoNotReconnect(w, s, run[..|run| - 1], c);
    }
  }
}
