/** The listener's cache (pkg/stream/listener/listener.go:144-172): stores replace the closure
    under the lock, deletions after unlocking. When can a read return an older map than a read
    that had returned before it started? Exactly when among the calls there are a deletion, two
    more writes and three reads. */
module GoingBack {
  import opened Options
  import opened Order
  import opened Cache
  import opened Monotone

  predicate Writes<V>(op: Op<V>) { op.Store? || op.Delete? }

  // A deletion, two other writes and three reads.
  ghost predicate Cast<V>(ts: seq<Thread<V>>, d: nat, w1: nat, w2: nat, r1: nat, r2: nat, r3: nat) {
    && d < |ts| && w1 < |ts| && w2 < |ts| && d != w1 && d != w2 && w1 != w2
    && ts[d].op.Delete? && Writes(ts[w1].op) && Writes(ts[w2].op)
    && r1 < |ts| && r2 < |ts| && r3 < |ts| && r1 != r2 && r1 != r3 && r2 != r3
    && ts[r1].op.Read? && ts[r2].op.Read? && ts[r3].op.Read?
  }

  // A run in which read b, started after read a has returned, returns an older version.
  ghost predicate OlderRead<V>(
    underLock: bool, s0: System<V>, first: seq<nat>, s: System<V>, second: seq<nat>, s': System<V>, a: nat, b: nat)
  {
    && Inv(s0) && Run(underLock, s0, first, s) && Inv(s) && Run(underLock, s, second, s')
    && InSequence(s, s', a, b) && s'.threads[b].pc.ver < s.threads[a].pc.ver
  }

  ghost predicate GoesBack<V(!new)>(underLock: bool, s0: System<V>) {
    exists first: seq<nat>, s: System<V>, second: seq<nat>, s': System<V>, a: nat, b: nat ::
      OlderRead(underLock, s0, first, s, second, s', a, b)
  }

  // ---- Without deletions ---------------------------------------------------------------

  // The calls are the same, step by step.
  ghost predicate SameCalls<V>(s: System<V>, s': System<V>) {
    |s'.threads| == |s.threads| && forall t :: 0 <= t < |s.threads| ==> s'.threads[t].op == s.threads[t].op
  }

  lemma StepKeepsCalls<V>(underLock: bool, s: System<V>, t: nat)
    requires Inv(s) && Enabled(s, t)
    ensures SameCalls(s, Do(underLock, s, t))
  {
    hide View;
    assert ThreadOk(s, t);
  }

  lemma {:induction false} RunKeepsCalls<V>(underLock: bool, s: System<V>, schedule: seq<nat>, s': System<V>)
    requires Inv(s) && Run(underLock, s, schedule, s')
    ensures SameCalls(s, s')
    decreases |schedule|
  {
    hide View;
    if schedule != [] {
      hide Do, Enabled;
      StepKeepsInv(underLock, s, schedule[0]);
      StepKeepsCalls(underLock, s, schedule[0]);
      RunKeepsCalls(underLock, Do(underLock, s, schedule[0]), schedule[1..], s');
    }
  }

  ghost predicate NoDeletes<V>(s: System<V>) { forall t :: 0 <= t < |s.threads| ==> !s.threads[t].op.Delete? }

  lemma {:induction false} RunWithoutDeletes<V>(s: System<V>, schedule: seq<nat>, s': System<V>)
    requires Inv(s) && NoDeletes(s) && Run(false, s, schedule, s')
    ensures Run(true, s, schedule, s')
    decreases |schedule|
  {
    hide View;
    if schedule != [] {
      var t := schedule[0];
      assert Do(true, s, t) == Do(false, s, t);
      hide Do, Enabled;
      StepKeepsInv(false, s, t);
      StepKeepsCalls(false, s, t);
      RunWithoutDeletes(Do(false, s, t), schedule[1..], s');
    }
  }

  // As long as nothing is deleted, the listener's reads never go back.
  lemma NeverBackWithoutDeletes<V>(
    s0: System<V>, first: seq<nat>, s: System<V>, second: seq<nat>, s': System<V>, a: nat, b: nat)
    requires Initial(s0) && Inv(s0) && NoDeletes(s0) && Run(false, s0, first, s)
    requires Inv(s) && Run(false, s, second, s')
    requires InSequence(s, s', a, b)
    ensures s'.threads[b].pc.ver >= s.threads[a].pc.ver
  {
    hide View, Do, Enabled;
    RunWithoutDeletes(s0, first, s);
    RunKeepsCalls(false, s0, first, s);
    assert NoDeletes(s);
    RunWithoutDeletes(s, second, s');
    ReadsNeverGoBack(s0, first, s, second, s', a, b);
  }

  // ---- What going back takes -----------------------------------------------------------

  // A writer between changing the map and replacing the closure.
  predicate Pends<V>(pc: PC<V>) { pc.Changed? || pc.Unlocked? }

  function Pending<V>(ts: seq<Thread<V>>): nat {
    if ts == [] then 0 else (if Pends(ts[0].pc) then 1 else 0) + Pending(ts[1..])
  }

  lemma {:induction false} PendingAfter<V>(ts: seq<Thread<V>>, t: nat, pc: PC<V>)
    requires t < |ts|
    ensures Pending(ts[t := ts[t].(pc := pc)]) ==
      Pending(ts) - (if Pends(ts[t].pc) then 1 else 0) + if Pends(pc) then 1 else 0
    decreases t
  {
    var after := ts[t := ts[t].(pc := pc)];
    if t > 0 {
      PendingAfter(ts[1..], t - 1, pc);
      assert after[1..] == ts[1..][t - 1 := ts[1..][t - 1].(pc := pc)];
    } else {
      assert after[1..] == ts[1..];
    }
  }

  ghost predicate ReturnedFrom<V>(s: System<V>, t: nat, c: nat) {
    t < |s.threads| && s.threads[t].pc.Returned? && s.threads[t].pc.cell == c
  }

  ghost predicate ReturnShows<V>(s: System<V>, t: nat) {
    t < |s.threads| && s.threads[t].pc.Returned? ==>
      var pc := s.threads[t].pc; pc.cell < |s.cells| && s.cells[pc.cell] == Forced(pc.list, pc.ver)
  }

  // A cell is forced by a reader that returns its value; the c-th cell is not older than the
  // c-th change.
  ghost predicate CellTraced<V>(s: System<V>, c: nat) {
    c < |s.cells| && |s.born| == |s.cells| ==>
      s.born[c] >= c && (c > 0 && s.cells[c].Forced? ==> exists t :: ReturnedFrom(s, t, c))
  }

  ghost predicate Traced<V>(s: System<V>) {
    && Inv(s) && s.cells[0] == Forced([], 0) && |s.cells| + Pending(s.threads) == |s.hist|
    && (forall t: nat :: ReturnShows(s, t)) && (forall c: nat :: CellTraced(s, c))
  }

  lemma InitialTraced<V>(s: System<V>)
    requires Initial(s)
    ensures Traced(s)
  {
    InitialInv(s);
    NobodyPending(s.threads);
    forall t: nat ensures ReturnShows(s, t) {}
  }

  lemma {:induction false} NobodyPending<V>(ts: seq<Thread<V>>)
    requires forall t :: 0 <= t < |ts| ==> ts[t].pc == Start
    ensures Pending(ts) == 0
    decreases |ts|
  {
    if ts != [] { NobodyPending(ts[1..]); }
  }

  // A write adds a version, then a cell, then is no longer pending.
  lemma StepCounts<V>(underLock: bool, s: System<V>, t: nat)
    requires Inv(s) && Enabled(s, t)
    ensures var s', pc := Do(underLock, s, t), s.threads[t].pc;
      && |s'.threads| == |s.threads| && s'.threads == s.threads[t := s.threads[t].(pc := s'.threads[t].pc)]
      && |s'.hist| == |s.hist| + (if pc.Locked? then 1 else 0)
      && |s'.hist| + |s.cells| + (if Pends(pc) then 1 else 0) ==
         |s.hist| + |s'.cells| + (if Pends(s'.threads[t].pc) then 1 else 0)
      && (|s'.cells| > |s.cells| ==> Pends(pc) && s'.born == s.born + [|s.hist| - 1])
  {
    hide View;
    assert ThreadOk(s, t);
  }

  lemma StepKeepsTally<V>(underLock: bool, s: System<V>, t: nat)
    requires Traced(s) && Enabled(s, t)
    ensures var s' := Do(underLock, s, t);
      |s'.cells| + Pending(s'.threads) == |s'.hist| && |s'.cells| > 0 && s'.cells[0] == Forced([], 0)
    ensures var s' := Do(underLock, s, t);
      |s'.cells| > |s.cells| ==> s'.born == s.born + [|s.hist| - 1] && |s.hist| - 1 >= |s.cells|
  {
    StepCounts(underLock, s, t);
    StepFrame(underLock, s, t);
    hide View, Do, Enabled, Inv, Pending;
    PendingAfter(s.threads, t, Do(underLock, s, t).threads[t].pc);
    if Pends(s.threads[t].pc) { SomebodyPending(s.threads, t); }
  }

  lemma {:induction false} SomebodyPending<V>(ts: seq<Thread<V>>, t: nat)
    requires t < |ts| && Pends(ts[t].pc)
    ensures Pending(ts) > 0
    decreases t
  {
    if t > 0 { SomebodyPending(ts[1..], t - 1); }
  }

  lemma ReturnedIsDone<V>(s: System<V>, t: nat)
    requires Enabled(s, t)
    ensures !s.threads[t].pc.Returned?
  {}

  lemma OwnStepReturns<V>(underLock: bool, s: System<V>, t: nat)
    requires Inv(s) && Enabled(s, t)
    ensures ReturnShows(Do(underLock, s, t), t)
  {
    hide View;
    assert ThreadOk(s, t);
  }

  // A cell that a step forces belongs to the reader that took the step and has returned.
  lemma ForcedByStep<V>(underLock: bool, s: System<V>, t: nat, c: nat)
    requires Inv(s) && Enabled(s, t) && c < |s.cells| <= |Do(underLock, s, t).cells|
    requires !s.cells[c].Forced? && Do(underLock, s, t).cells[c].Forced?
    ensures ReturnedFrom(Do(underLock, s, t), t, c)
  {
    hide View;
    assert ThreadOk(s, t);
  }

  lemma StepKeepsReturns<V>(underLock: bool, s: System<V>, t: nat, i: nat)
    requires Traced(s) && Enabled(s, t)
    ensures ReturnShows(Do(underLock, s, t), i)
  {
    StepFrame(underLock, s, t);
    OwnStepReturns(underLock, s, t);
    hide View, Do, Enabled, Inv;
    assert ReturnShows(s, i);
  }

  lemma StepKeepsCellTraced<V>(underLock: bool, s: System<V>, t: nat, c: nat)
    requires Traced(s) && Enabled(s, t)
    ensures CellTraced(Do(underLock, s, t), c)
  {
    StepFrame(underLock, s, t);
    StepKeepsTally(underLock, s, t);
    var s' := Do(underLock, s, t);
    assert CellTraced(s, c);
    ReturnedIsDone(s, t);
    if 0 < c < |s.cells| && s'.cells[c].Forced? {
      if s.cells[c].Forced? {
        var i :| ReturnedFrom(s, i, c);
        hide View, Do, Enabled, Inv;
        assert ReturnedFrom(s', i, c);
      } else {
        ForcedByStep(underLock, s, t, c);
      }
    }
    FreshCellsAreUnforced(underLock, s, t);
    hide View, Do, Enabled, Inv;
  }

  lemma FreshCellsAreUnforced<V>(underLock: bool, s: System<V>, t: nat)
    requires Inv(s) && Enabled(s, t)
    ensures var s' := Do(underLock, s, t);
      |s.cells| <= |s'.cells| <= |s.cells| + 1 && (|s'.cells| > |s.cells| ==> s'.cells[|s.cells|] == Unforced)
  {
    hide View;
  }

  lemma StepKeepsTraced<V>(underLock: bool, s: System<V>, t: nat)
    requires Traced(s) && Enabled(s, t)
    ensures Traced(Do(underLock, s, t))
  {
    hide View, Do;
    StepKeepsInv(underLock, s, t);
    StepKeepsTally(underLock, s, t);
    var s' := Do(underLock, s, t);
    forall i: nat ensures ReturnShows(s', i) { StepKeepsReturns(underLock, s, t, i); }
    forall c: nat ensures CellTraced(s', c) { StepKeepsCellTraced(underLock, s, t, c); }
  }

  lemma {:induction false} RunKeepsTraced<V>(underLock: bool, s: System<V>, schedule: seq<nat>, s': System<V>)
    requires Traced(s) && Run(underLock, s, schedule, s')
    ensures Traced(s')
    decreases |schedule|
  {
    hide View, Do, Enabled, Traced;
    if schedule != [] {
      StepKeepsTraced(underLock, s, schedule[0]);
      assert Inv(s) by { TracedInv(s); }
      StepKeepsInv(underLock, s, schedule[0]);
      RunKeepsTraced(underLock, Do(underLock, s, schedule[0]), schedule[1..], s');
    }
  }

  lemma TracedInv<V>(s: System<V>)
    requires Traced(s)
    ensures Inv(s)
  {}

  // Reader b started when cell c was current, or later, and the map had version v. It took c
  // or a later cell, and if it returns less than v then another reader forced its cell.
  ghost predicate Trails<V>(s: System<V>, b: nat, c: nat, v: nat) {
    && b < |s.threads| && s.threads[b].op.Read? && 0 < c < |s.cells| && v < |s.hist|
    && var pc := s.threads[b].pc;
    && (!pc.Start? ==> CellOfReader(pc) >= c)
    && (pc.Computed? || pc.Released? ==> pc.ver >= v)
    && (pc.Returned? ==> pc.ver >= v || exists t :: t != b && ReturnedFrom(s, t, pc.cell))
  }

  lemma StepKeepsTrails<V>(underLock: bool, s: System<V>, t: nat, b: nat, c: nat, v: nat)
    requires Traced(s) && Enabled(s, t) && Trails(s, b, c, v)
    ensures Trails(Do(underLock, s, t), b, c, v)
  {
    hide View, Do, Enabled;
    if t == b { OwnStepKeepsTrails(underLock, s, b, c, v); } else { OtherStepKeepsTrails(underLock, s, t, b, c, v); }
  }

  lemma OtherStepKeepsTrails<V>(underLock: bool, s: System<V>, t: nat, b: nat, c: nat, v: nat)
    requires Traced(s) && Enabled(s, t) && Trails(s, b, c, v) && t != b
    ensures Trails(Do(underLock, s, t), b, c, v)
  {
    hide View;
    StepFrame(underLock, s, t);
    var s', pc := Do(underLock, s, t), s.threads[b].pc;
    if pc.Returned? && pc.ver < v {
      var i :| i != b && ReturnedFrom(s, i, pc.cell);
      assert i != t;
      hide Do;
      assert ReturnedFrom(s', i, pc.cell);
    }
  }

  lemma OwnStepKeepsTrails<V>(underLock: bool, s: System<V>, b: nat, c: nat, v: nat)
    requires Traced(s) && Enabled(s, b) && Trails(s, b, c, v)
    ensures Trails(Do(underLock, s, b), b, c, v)
  {
    hide View;
    var s', pc := Do(underLock, s, b), s.threads[b].pc;
    assert ThreadOk(s, b);
    if pc.Have? && s.cells[pc.cell].Forced? {
      assert CellTraced(s, pc.cell);
      var i :| ReturnedFrom(s, i, pc.cell);
      assert ReturnedFrom(s', i, pc.cell);
    }
  }

  lemma {:induction false} RunKeepsTrails<V>(
    underLock: bool, s: System<V>, schedule: seq<nat>, s': System<V>, b: nat, c: nat, v: nat)
    requires Traced(s) && Trails(s, b, c, v) && Inv(s) && Run(underLock, s, schedule, s')
    ensures Trails(s', b, c, v)
    decreases |schedule|
  {
    hide View, Do, Enabled, Traced, Trails;
    if schedule != [] {
      StepKeepsTraced(underLock, s, schedule[0]);
      StepKeepsTrails(underLock, s, schedule[0], b, c, v);
      StepKeepsInv(underLock, s, schedule[0]);
      RunKeepsTrails(underLock, Do(underLock, s, schedule[0]), schedule[1..], s', b, c, v);
    }
  }

  lemma {:induction false} ReturnedStays<V>(
    underLock: bool, s: System<V>, schedule: seq<nat>, s': System<V>, t: nat)
    requires Inv(s) && Run(underLock, s, schedule, s') && t < |s.threads| && s.threads[t].pc.Returned?
    ensures t < |s'.threads| && s'.threads[t] == s.threads[t]
    decreases |schedule|
  {
    hide View;
    if schedule != [] {
      StepFrame(underLock, s, schedule[0]);
      assert schedule[0] != t;
      hide Do, Enabled;
      StepKeepsInv(underLock, s, schedule[0]);
      ReturnedStays(underLock, Do(underLock, s, schedule[0]), schedule[1..], s', t);
    }
  }

  // Three reads, and a version that takes three writes.
  lemma OlderReadNeeds<V>(
    underLock: bool, s0: System<V>, first: seq<nat>, s: System<V>, second: seq<nat>, s': System<V>, a: nat, b: nat)
    returns (f: nat)
    requires Initial(s0) && OlderRead(underLock, s0, first, s, second, s', a, b)
    ensures Inv(s') && |s'.hist| > 3
    ensures a < |s'.threads| && b < |s'.threads| && f < |s'.threads| && a != b && a != f && b != f
    ensures s'.threads[a].op.Read? && s'.threads[b].op.Read? && s'.threads[f].op.Read?
  {
    hide View, Do, Enabled, Run;
    InitialTraced(s0);
    RunKeepsTraced(underLock, s0, first, s);
    RunKeepsTraced(underLock, s, second, s');
    var c, v := s.threads[a].pc.cell, s.threads[a].pc.ver;
    assert ReturnShows(s, a) && ThreadOk(s, a);
    RunKeepsTrails(underLock, s, second, s', b, c, v);
    ReturnedStays(underLock, s, second, s', a);
    var pc := s'.threads[b].pc;
    f :| f != b && ReturnedFrom(s', f, pc.cell);
    assert ReturnShows(s', a) && ReturnShows(s', b);
    assert ThreadOk(s', a) && ThreadOk(s', b) && ThreadOk(s', f);
    assert CellTraced(s', pc.cell);
  }

  // The authors of the first three changes are three writers.
  lemma ThreeWriters<V>(s: System<V>)
    requires Inv(s) && |s.hist| > 3
    ensures forall v :: 1 <= v <= 3 ==> s.author[v] < |s.threads| && Writes(s.threads[s.author[v]].op)
    ensures s.author[1] != s.author[2] && s.author[1] != s.author[3] && s.author[2] != s.author[3]
  {
    hide View;
    forall v: nat | 1 <= v <= 3
      ensures s.author[v] < |s.threads| && Writes(s.threads[s.author[v]].op)
      ensures Wrote(s.threads[s.author[v]].pc) && s.threads[s.author[v]].pc.ver == v
    {
      assert VersionOk(s, v) && ThreadOk(s, s.author[v]);
    }
  }

  lemma GoingBackTakes<V>(
    s0: System<V>, first: seq<nat>, s: System<V>, second: seq<nat>, s': System<V>, a: nat, b: nat)
    returns (d: nat, w1: nat, w2: nat, f: nat)
    requires Initial(s0) && OlderRead(false, s0, first, s, second, s', a, b)
    ensures Cast(s0.threads, d, w1, w2, a, f, b)
  {
    hide View, Do, Enabled, Run;
    f := OlderReadNeeds(false, s0, first, s, second, s', a, b);
    ThreeWriters(s');
    RunKeepsCalls(false, s0, first, s);
    RunKeepsCalls(false, s, second, s');
    assert SameCalls(s0, s');
    if NoDeletes(s0) { NeverBackWithoutDeletes(s0, first, s, second, s', a, b); }
    d :| d < |s0.threads| && s0.threads[d].op.Delete?;
    var x, y, z := s'.author[1], s'.author[2], s'.author[3];
    if d == x { w1, w2 := y, z; } else if d == y { w1, w2 := x, z; } else { w1, w2 := x, y; }
  }

  // ---- A run that goes back ------------------------------------------------------------

  ghost predicate Reaches<V>(s0: System<V>, schedule: seq<nat>, s: System<V>) {
    Inv(s0) && Inv(s) && Run(false, s0, schedule, s)
  }

  lemma OneStep<V>(s: System<V>, t: nat)
    requires Inv(s) && Enabled(s, t)
    ensures Reaches(s, [t], Do(false, s, t))
  {
    hide View;
    StepKeepsInv(false, s, t);
    assert [t][1..] == [];
    assert Run(false, s, [t], Do(false, s, t));
  }

  lemma {:induction false} RunThenStep<V>(s0: System<V>, schedule: seq<nat>, s: System<V>, t: nat)
    requires Reaches(s0, schedule, s) && Enabled(s, t)
    ensures Reaches(s0, schedule + [t], Do(false, s, t))
    decreases |schedule|
  {
    hide Do, Enabled, View;
    StepKeepsInv(false, s, t);
    if schedule == [] {
      assert schedule + [t] == [t];
      OneStep(s, t);
    } else {
      StepKeepsInv(false, s0, schedule[0]);
      assert (schedule + [t])[1..] == schedule[1..] + [t];
      RunThenStep(Do(false, s0, schedule[0]), schedule[1..], s, t);
    }
  }

  // A whole store or deletion, from its start to its return.
  lemma WriteRuns<V>(s0: System<V>, before: seq<nat>, s: System<V>, t: nat) returns (schedule: seq<nat>, s': System<V>)
    requires Reaches(s0, before, s)
    requires s.lock.None? && t < |s.threads| && s.threads[t].pc.Start? && Writes(s.threads[t].op)
    ensures Reaches(s0, schedule, s')
    ensures var m := Apply(s.threads[t].op, s.policies);
      s' == s.(policies := m, hist := s.hist + [m], author := s.author + [t],
               cells := s.cells + [Unforced], born := s.born + [|s.hist|], current := |s.cells|,
               threads := At(s, t, Finished(|s.hist|)))
  {
    hide View;
    assert |s.hist| > 0;
    hide Reaches, Inv, Run;
    var s1 := Do(false, s, t);
    RunThenStep(s0, before, s, t);
    var s2 := Do(false, s1, t);
    RunThenStep(s0, before + [t], s1, t);
    var s3 := Do(false, s2, t);
    RunThenStep(s0, before + [t] + [t], s2, t);
    RunThenStep(s0, before + [t] + [t] + [t], s3, t);
    s' := Do(false, s3, t);
    schedule := before + [t] + [t] + [t] + [t];
    assert s'.threads == At(s, t, Finished(|s.hist|));
  }

  // A deletion up to the point between unlocking and replacing the closure.
  lemma DeleteUnlocks<V>(
    s0: System<V>, before: seq<nat>, s: System<V>, t: nat) returns (schedule: seq<nat>, s': System<V>)
    requires Reaches(s0, before, s)
    requires s.lock.None? && t < |s.threads| && s.threads[t].pc.Start? && s.threads[t].op.Delete?
    ensures Reaches(s0, schedule, s')
    ensures var m := Apply(s.threads[t].op, s.policies);
      s' == s.(policies := m, hist := s.hist + [m], author := s.author + [t], threads := At(s, t, Unlocked(|s.hist|)))
  {
    hide View;
    assert |s.hist| > 0;
    hide Reaches, Inv, Run;
    var s1 := Do(false, s, t);
    RunThenStep(s0, before, s, t);
    var s2 := Do(false, s1, t);
    RunThenStep(s0, before + [t], s1, t);
    RunThenStep(s0, before + [t] + [t], s2, t);
    s' := Do(false, s2, t);
    schedule := before + [t] + [t] + [t];
    assert s'.threads == At(s, t, Unlocked(|s.hist|));
  }

  // A reader that holds an unforced closure locks the map.
  lemma ReadLocks<V>(s0: System<V>, before: seq<nat>, s: System<V>, r: nat) returns (schedule: seq<nat>, s': System<V>)
    requires Reaches(s0, before, s)
    requires s.lock.None? && r < |s.threads| && s.threads[r].pc.Have?
    requires s.threads[r].pc.cell < |s.cells| && s.cells[s.threads[r].pc.cell].Unforced?
    ensures Reaches(s0, schedule, s')
    ensures var c := s.threads[r].pc.cell;
      s' == s.(lock := Some(r), cells := s.cells[c := Running(r)], threads := At(s, r, Reading(c)))
  {
    hide View;
    assert |s.hist| > 0;
    hide Reaches, Inv, Run;
    var s1 := Do(false, s, r);
    RunThenStep(s0, before, s, r);
    RunThenStep(s0, before + [r], s1, r);
    s' := Do(false, s1, r);
    schedule := before + [r] + [r];
    assert s'.threads == At(s, r, Reading(s.threads[r].pc.cell));
  }

  // It computes the view, unlocks and returns.
  lemma ReadForces<V>(s0: System<V>, before: seq<nat>, s: System<V>, r: nat) returns (schedule: seq<nat>, s': System<V>)
    requires Reaches(s0, before, s)
    requires s.lock.None? && r < |s.threads| && s.threads[r].pc.Have?
    requires s.threads[r].pc.cell < |s.cells| && s.cells[s.threads[r].pc.cell].Unforced?
    ensures Reaches(s0, schedule, s')
    ensures var c := s.threads[r].pc.cell;
      s' == s.(cells := s.cells[c := Forced(View(s.policies), |s.hist| - 1)],
               threads := At(s, r, Returned(c, View(s.policies), |s.hist| - 1)))
  {
    hide View;
    assert |s.hist| > 0;
    hide Reaches, Inv, Run;
    var s1;
    schedule, s1 := ReadLocks(s0, before, s, r);
    var s2 := Do(false, s1, r);
    RunThenStep(s0, schedule, s1, r);
    var s3 := Do(false, s2, r);
    RunThenStep(s0, schedule + [r], s2, r);
    RunThenStep(s0, schedule + [r] + [r], s3, r);
    s' := Do(false, s3, r);
    schedule := schedule + [r] + [r] + [r];
    var c := s.threads[r].pc.cell;
    assert s'.threads == At(s, r, Returned(c, View(s.policies), |s.hist| - 1));
    assert s'.cells == s.cells[c := Forced(View(s.policies), |s.hist| - 1)];
  }

  lemma ReadStarts<V>(s0: System<V>, before: seq<nat>, s: System<V>, r: nat) returns (schedule: seq<nat>, s': System<V>)
    requires Reaches(s0, before, s) && r < |s.threads| && s.threads[r] == Thread(Read, Start)
    ensures Reaches(s0, schedule, s') && s' == s.(threads := At(s, r, Have(s.current)))
  {
    RunThenStep(s0, before, s, r);
    schedule, s' := before + [r], Do(false, s, r);
  }

  lemma ReadReturns<V>(
    s0: System<V>, before: seq<nat>, s: System<V>, r: nat) returns (schedule: seq<nat>, s': System<V>)
    requires Reaches(s0, before, s) && r < |s.threads| && s.threads[r] == Thread(Read, Start)
    requires s.current < |s.cells| && s.cells[s.current].Forced?
    ensures Reaches(s0, schedule, s')
    ensures s' == s.(threads := At(s, r, Returned(s.current, s.cells[s.current].list, s.cells[s.current].ver)))
  {
    hide View;
    var s1;
    schedule, s1 := ReadStarts(s0, before, s, r);
    RunThenStep(s0, schedule, s1, r);
    schedule, s' := schedule + [r], Do(false, s1, r);
    assert s'.threads == At(s, r, Returned(s.current, s.cells[s.current].list, s.cells[s.current].ver));
  }

  // The states of the map in the run below.
  ghost function After1<V>(s0: System<V>, w1: nat): map<string, V>
    requires w1 < |s0.threads|
  {
    Apply(s0.threads[w1].op, map[])
  }

  ghost function After2<V>(s0: System<V>, w1: nat, w2: nat): map<string, V>
    requires w1 < |s0.threads| && w2 < |s0.threads|
  {
    Apply(s0.threads[w2].op, After1(s0, w1))
  }

  // The first write runs; reader r1 takes its closure and pauses.
  lemma UpToPause<V>(s0: System<V>, d: nat, w1: nat, w2: nat, r1: nat, r2: nat, r3: nat)
    returns (schedule: seq<nat>, s: System<V>)
    requires Initial(s0) && Cast(s0.threads, d, w1, w2, r1, r2, r3)
    ensures Reaches(s0, schedule, s) && |s.threads| == |s0.threads|
    ensures s.lock == None && s.policies == After1(s0, w1) && |s.hist| == 2
    ensures |s.cells| == 2 && s.current == 1 && s.cells[1] == Unforced
    ensures s.threads[r1] == Thread(Read, Have(1))
    ensures forall t :: 0 <= t < |s.threads| && t != w1 && t != r1 ==> s.threads[t] == s0.threads[t]
  {
    hide View;
    InitialInv(s0);
    var s1;
    assert Reaches(s0, [], s0);
    hide Reaches, Inv, Run, Do, Enabled;
    schedule, s1 := WriteRuns(s0, [], s0, w1);
    schedule, s := ReadStarts(s0, schedule, s1, r1);
  }

  // The second write runs; reader r2 takes its closure, forces it and returns.
  lemma UpToForced<V>(s0: System<V>, d: nat, w1: nat, w2: nat, r1: nat, r2: nat, r3: nat)
    returns (schedule: seq<nat>, s: System<V>)
    requires Initial(s0) && Cast(s0.threads, d, w1, w2, r1, r2, r3)
    ensures Reaches(s0, schedule, s) && |s.threads| == |s0.threads|
    ensures s.lock == None && s.policies == After2(s0, w1, w2) && |s.hist| == 3
    ensures |s.cells| == 3 && s.current == 2 && s.cells[1] == Unforced && s.cells[2] == Forced(View(s.policies), 2)
    ensures s.threads[r1] == Thread(Read, Have(1)) && s.threads[d] == s0.threads[d] && s.threads[r3] == s0.threads[r3]
  {
    hide View, Reaches, Inv, Run, Do, Enabled;
    var s2;
    schedule, s2 := UpToPause(s0, d, w1, w2, r1, r2, r3);
    var s3;
    schedule, s3 := WriteRuns(s0, schedule, s2, w2);
    var s4;
    schedule, s4 := ReadStarts(s0, schedule, s3, r2);
    schedule, s := ReadForces(s0, schedule, s4, r2);
  }

  // The deletion changes the map and unlocks; reader r1 forces its old closure and returns the
  // map after the deletion.
  lemma UpToOldRead<V>(s0: System<V>, d: nat, w1: nat, w2: nat, r1: nat, r2: nat, r3: nat)
    returns (schedule: seq<nat>, s: System<V>)
    requires Initial(s0) && Cast(s0.threads, d, w1, w2, r1, r2, r3)
    ensures Reaches(s0, schedule, s) && |s.threads| == |s0.threads|
    ensures |s.hist| == 4 && |s.cells| == 3 && s.current == 2
    ensures s.cells[2] == Forced(View(After2(s0, w1, w2)), 2)
    ensures s.threads[r1] == Thread(Read, Returned(1, View(Apply(s0.threads[d].op, After2(s0, w1, w2))), 3))
    ensures s.threads[r3] == s0.threads[r3]
  {
    hide View, Apply, Reaches, Inv, Run, Do, Enabled;
    assert s0.threads[d].pc == Start;
    hide Initial;
    var s5;
    schedule, s5 := UpToForced(s0, d, w1, w2, r1, r2, r3);
    var s6;
    schedule, s6 := DeleteUnlocks(s0, schedule, s5, d);
    schedule, s := ReadForces(s0, schedule, s6, r1);
  }

  // Reader r3 starts after r1 has returned, takes the current closure, and returns the map
  // before the deletion.
  lemma ReadsCanGoBack<V>(s0: System<V>, d: nat, w1: nat, w2: nat, r1: nat, r2: nat, r3: nat)
    returns (first: seq<nat>, s: System<V>, second: seq<nat>, s': System<V>)
    requires Initial(s0) && Cast(s0.threads, d, w1, w2, r1, r2, r3)
    ensures OlderRead(false, s0, first, s, second, s', r1, r3)
    ensures s.threads[r1].pc.list == View(Apply(s0.threads[d].op, After2(s0, w1, w2)))
    ensures s'.threads[r3].pc.list == View(After2(s0, w1, w2))
  {
    hide View, Apply, Inv, Do, Enabled;
    assert s0.threads[r3] == Thread(Read, Start);
    hide Initial;
    first, s := UpToOldRead(s0, d, w1, w2, r1, r2, r3);
    assert Reaches(s, [], s);
    hide Run;
    second, s' := ReadReturns(s, [], s, r3);
  }

  // Reads can go back if and only if closures are not all replaced under the lock and the calls
  // include a deletion, two other writes and three reads.
  lemma ReadsGoBackIff<V(!new)>(underLock: bool, s0: System<V>)
    requires Initial(s0)
    ensures GoesBack(underLock, s0) <==>
      !underLock &&
      exists d: nat, w1: nat, w2: nat, r1: nat, r2: nat, r3: nat :: Cast(s0.threads, d, w1, w2, r1, r2, r3)
  {
    hide Inv, Run, Initial, View, Cast, InSequence;
    if GoesBack(underLock, s0) {
      var first: seq<nat>, s: System<V>, second: seq<nat>, s': System<V>, a: nat, b: nat :|
        OlderRead(underLock, s0, first, s, second, s', a, b);
      if underLock {
        ReadsNeverGoBack(s0, first, s, second, s', a, b);
      } else {
        var d, w1, w2, f := GoingBackTakes(s0, first, s, second, s', a, b);
      }
    }
    if !underLock {
      if d: nat, w1: nat, w2: nat, r1: nat, r2: nat, r3: nat :| Cast(s0.threads, d, w1, w2, r1, r2, r3) {
        var first, s, second, s' := ReadsCanGoBack(s0, d, w1, w2, r1, r2, r3);
      }
    }
  }

  // ---- Reads beside a change -----------------------------------------------------------

  // While a writer holds the lock, between its change and its replacement, a whole read goes
  // through without it and returns the map before the change.
  lemma ReadsBesideAChange<V>(s0: System<V>, before: seq<nat>, s: System<V>, w: nat, r: nat)
    returns (schedule: seq<nat>, mid: System<V>, s': System<V>)
    requires Reaches(s0, before, s) && s.lock.None?
    requires w < |s.threads| && s.threads[w].pc.Start? && Writes(s.threads[w].op)
    requires r < |s.threads| && s.threads[r] == Thread(Read, Start)
    requires s.cells[s.current].Forced? && s.cells[s.current].list == View(s.policies)
    ensures Inv(mid) && mid.lock == Some(w) && mid.policies == Apply(s.threads[w].op, s.policies)
    ensures Reaches(mid, [r, r], s') && Reaches(s0, schedule, s')
    ensures s'.lock == Some(w) && s'.policies == mid.policies
    ensures r < |s'.threads| && s'.threads[r].pc.Returned? && s'.threads[r].pc.list == View(s.policies)
  {
    hide View;
    assert |s.hist| > 0;
    hide Reaches, Inv, Run;
    var s1 := Do(false, s, w);
    RunThenStep(s0, before, s, w);
    mid := Do(false, s1, w);
    RunThenStep(s0, before + [w], s1, w);
    schedule := before + [w] + [w];
    Reached(s0, schedule, mid);
    var more;
    more, s' := ReadReturns(s0, schedule, mid, r);
    schedule := more;
    ReadReturnsInTwo(mid, r, s');
  }

  lemma Reached<V>(s0: System<V>, schedule: seq<nat>, s: System<V>)
    requires Reaches(s0, schedule, s)
    ensures Inv(s)
  {}

  lemma ReadReturnsInTwo<V>(s: System<V>, r: nat, s': System<V>)
    requires Inv(s) && r < |s.threads| && s.threads[r] == Thread(Read, Start)
    requires s.current < |s.cells| && s.cells[s.current].Forced?
    requires s' == s.(threads := At(s, r, Returned(s.current, s.cells[s.current].list, s.cells[s.current].ver)))
    ensures Reaches(s, [r, r], s')
  {
    hide View;
    OneStep(s, r);
    var s1 := Do(false, s, r);
    RunThenStep(s, [r], s1, r);
    assert [r] + [r] == [r, r];
    assert Do(false, s1, r).threads == s'.threads;
  }

  // ---- What a client sees --------------------------------------------------------------

  const OPS: seq<Op<int>> := [Store("a", 1), Store("b", 2), Delete("a"), Read, Read, Read]

  function Begin(): System<int> {
    System(map[], [map[]], [0], None, [Forced([], 0)], [0], 0, seq(6, i requires 0 <= i < 6 => Thread(OPS[i], Start)))
  }

  // A deleted policy is gone from one read and back in a later one.
  lemma DeletionLetsReadsGoBack()
    returns (first: seq<nat>, s: System<int>, second: seq<nat>, s': System<int>)
    ensures Initial(Begin()) && OlderRead(false, Begin(), first, s, second, s', 3, 5)
    ensures s.threads[3].pc.list == View(map["b" := 2]) && s'.threads[5].pc.list == View(map["a" := 1, "b" := 2])
    ensures s'.threads[5].pc.list != s.threads[3].pc.list
  {
    hide View, OlderRead;
    var s0 := Begin();
    assert Cast(s0.threads, 2, 0, 1, 3, 4, 5);
    assert After2(s0, 0, 1) == map["a" := 1, "b" := 2];
    assert Apply(s0.threads[2].op, After2(s0, 0, 1)) == map["b" := 2];
    ViewsDiffer();
    hide Cast, After2, Apply, Begin;
    first, s, second, s' := ReadsCanGoBack(s0, 2, 0, 1, 3, 4, 5);
  }

  lemma ViewsDiffer()
    ensures View(map["a" := 1, "b" := 2]) != View(map["b" := 2])
  {
    assert map["a" := 1, "b" := 2].Keys == {"a", "b"} && map["b" := 2].Keys == {"b"};
    assert |View(map["a" := 1, "b" := 2])| == 2 && |View(map["b" := 2])| == 1;
  }
}
