/** The cache with every closure replaced under the lock, as in the standalone reconciler and
    the sender. Every read is atomic: it returns the map of some moment between its start and
    its return. So a read never returns an older map than a read that had already returned. The
    listener's delete path is in GoingBack. */
module Monotone {
  import opened Order
  import opened Cache

  // ---- Replacing under the lock --------------------------------------------------------

  ghost predicate ThreadLead<V>(s: System<V>, t: nat) {
    t < |s.threads| && s.current < |s.born| ==>
      var pc := s.threads[t].pc;
      && !pc.Unlocked?
      && (pc.Computed? || pc.Released? || pc.Returned? ==> pc.ver <= s.born[s.current])
  }

  ghost predicate CellLead<V>(s: System<V>, c: nat) {
    c < |s.cells| && s.current < |s.born| && s.cells[c].Forced? ==> s.cells[c].ver <= s.born[s.current]
  }

  // No value in existence is newer than the current closure, which is as new as the map, or one
  // change older while a writer is between its change and its replacement.
  ghost predicate Led<V>(s: System<V>) {
    && Inv(s) && (forall t: nat :: ThreadLead(s, t)) && (forall c: nat :: CellLead(s, c))
    && s.born[s.current] == |s.hist| - if s.lock.Some? && s.threads[s.lock.value].pc.Changed? then 2 else 1
  }

  lemma InitialLed<V>(s: System<V>)
    requires Initial(s)
    ensures Inv(s) && Led(s)
  {
    InitialInv(s);
    assert forall t: nat :: ThreadLead(s, t);
    assert forall c: nat :: CellLead(s, c);
  }

  lemma StepKeepsLed<V>(s: System<V>, t: nat)
    requires Led(s) && Enabled(s, t)
    ensures Led(Do(true, s, t))
  {
    hide View;
    StepKeepsInv(true, s, t);
    var s' := Do(true, s, t);
    assert ThreadOk(s, t) && ThreadLead(s, t) && CellOk(s, s.current);
    forall i: nat ensures ThreadLead(s', i) {
      assert ThreadLead(s, i) && ThreadOk(s, i);
      if s.threads[t].pc.Have? { assert CellLead(s, s.threads[t].pc.cell); }
    }
    forall c: nat ensures CellLead(s', c) { assert CellLead(s, c); }
  }

  lemma {:induction false} RunKeepsLed<V>(s: System<V>, schedule: seq<nat>, s': System<V>)
    requires Led(s) && Run(true, s, schedule, s')
    ensures Led(s')
    decreases |schedule|
  {
    hide Do, Enabled, View;
    if schedule != [] {
      StepKeepsLed(s, schedule[0]);
      RunKeepsLed(Do(true, s, schedule[0]), schedule[1..], s');
    }
  }

  // ---- Reads are atomic ----------------------------------------------------------------

  // The version of the current closure never skips one.
  lemma StepAdvances<V>(s: System<V>, t: nat)
    requires Led(s) && Enabled(s, t)
    ensures Led(Do(true, s, t))
    ensures var s' := Do(true, s, t); s.born[s.current] <= s'.born[s'.current] <= s.born[s.current] + 1
  {
    hide View;
    StepKeepsLed(s, t);
    assert ThreadOk(s, t);
  }

  // A run from version v0 to version v1 passes through every version between.
  lemma {:induction false} PassesThrough<V>(s: System<V>, schedule: seq<nat>, s': System<V>, v: nat)
    returns (k: nat, mid: System<V>)
    requires Led(s) && Run(true, s, schedule, s')
    requires s.born[s.current] <= v
    requires s'.current < |s'.born| && v <= s'.born[s'.current]
    ensures k <= |schedule| && Led(mid) && mid.born[mid.current] == v
    ensures Run(true, s, schedule[..k], mid) && Run(true, mid, schedule[k..], s')
    decreases |schedule|
  {
    hide Do, Enabled, View;
    if s.born[s.current] == v {
      k, mid := 0, s;
      assert schedule[0..] == schedule;
    } else {
      var t := schedule[0];
      StepAdvances(s, t);
      StepKeepsInv(true, s, t);
      k, mid := PassesThrough(Do(true, s, t), schedule[1..], s', v);
      k := k + 1;
      assert schedule[..k][1..] == schedule[1..][..k - 1] && schedule[k..] == schedule[1..][k - 1..];
    }
  }

  // A read that takes its first step in s and has returned in s' returns the map as it was at
  // some moment between, when every write is placed at the replacement of its closure.
  lemma ReadIsAtomic<V>(s0: System<V>, first: seq<nat>, s: System<V>, r: nat, rest: seq<nat>, s': System<V>)
    returns (k: nat, mid: System<V>)
    requires Initial(s0) && Inv(s0) && Run(true, s0, first, s)
    requires Inv(s) && r < |s.threads| && s.threads[r] == Thread(Read, Start)
    requires Inv(Do(true, s, r)) && Run(true, Do(true, s, r), rest, s')
    requires r < |s'.threads| && s'.threads[r].op.Read? && s'.threads[r].pc.Returned?
    ensures k <= |rest| && Led(mid)
    ensures Run(true, Do(true, s, r), rest[..k], mid) && Run(true, mid, rest[k..], s')
    ensures mid.born[mid.current] == s'.threads[r].pc.ver
    ensures s'.threads[r].pc.list == View(mid.hist[mid.born[mid.current]])
  {
    hide View;
    InitialLed(s0);
    RunKeepsLed(s0, first, s);
    StepKeepsLed(s, r);
    var s1 := Do(true, s, r);
    RunKeepsLed(s1, rest, s');
    FloorHolds(true, s1, rest, s', r, s1.born[s1.current]);
    assert ThreadOk(s', r) && ThreadLead(s', r);
    hide Do, Enabled;
    k, mid := PassesThrough(s1, rest, s', s'.threads[r].pc.ver);
    RunExtends(true, mid, rest[k..], s');
  }

  lemma {:induction false} RunExtends<V>(underLock: bool, s: System<V>, schedule: seq<nat>, s': System<V>)
    requires Inv(s) && Run(underLock, s, schedule, s')
    ensures s.hist <= s'.hist
    decreases |schedule|
  {
    hide Do, Enabled, View;
    if schedule != [] {
      StepKeepsInv(underLock, s, schedule[0]);
      StepFrame(underLock, s, schedule[0]);
      RunExtends(underLock, Do(underLock, s, schedule[0]), schedule[1..], s');
    }
  }

  // Read b starts after read a has returned.
  ghost predicate InSequence<V>(s: System<V>, s': System<V>, a: nat, b: nat) {
    && a < |s.threads| && s.threads[a].pc.Returned?
    && b < |s.threads| && s.threads[b] == Thread(Read, Start)
    && b < |s'.threads| && s'.threads[b].op.Read? && s'.threads[b].pc.Returned?
  }

  lemma ReadsNeverGoBack<V>(
    s0: System<V>, first: seq<nat>, s: System<V>, second: seq<nat>, s': System<V>, a: nat, b: nat)
    requires Initial(s0) && Inv(s0) && Run(true, s0, first, s)
    requires Inv(s) && Run(true, s, second, s')
    requires InSequence(s, s', a, b)
    ensures s'.threads[b].pc.ver >= s.threads[a].pc.ver
  {
    hide View;
    InitialLed(s0);
    RunKeepsLed(s0, first, s);
    assert ThreadLead(s, a) && ThreadOk(s, a);
    FloorHolds(true, s, second, s', b, s.threads[a].pc.ver);
    RunKeepsInv(true, s, second, s');
    assert ThreadOk(s', b);
  }
}
