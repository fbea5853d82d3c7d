/** The policy map and its sorted snapshot under concurrency.

    The listener, the sender and the standalone reconciler keep a map and a sync.OnceValue
    closure over it, replaced on every change. Writers change the map under the mutex; readers
    take the current closure without it and force it, which locks the mutex inside the
    closure. The listener's delete path replaces the closure after unlocking
    (pkg/stream/listener/listener.go:154-160); every other writer replaces it under the lock.

    Each atomic action is a step of one thread; a run is any interleaving of steps. */
module Cache {
  import opened Options
  import opened Order

  // A OnceValue cell: not forced yet, being forced by a thread, or holding its value. `ver`
  // is the version of the map the value was computed from.
  datatype Cell<V> = Unforced | Running(runner: nat) | Forced(list: seq<V>, ver: nat)

  // BadStore is a store whose policy does not compile.
  datatype Op<V> = Store(name: string, policy: V) | BadStore(name: string) | Delete(name: string) | Read

  datatype PC<V> =
    | Start
    // writers: rejected; holding the lock; map changed; closure replaced; unlocked before
    // replacing; finished
    | Skipped | Locked | Changed(ver: nat) | Replaced(ver: nat) | Unlocked(ver: nat) | Finished(ver: nat)
    // readers: holding a closure; inside Once; holding the lock; value computed; unlocked;
    // returned
    | Have(cell: nat) | Forcing(cell: nat) | Reading(cell: nat)
    | Computed(cell: nat, list: seq<V>, ver: nat) | Released(cell: nat, list: seq<V>, ver: nat)
    | Returned(cell: nat, list: seq<V>, ver: nat)

  datatype Thread<V> = Thread(op: Op<V>, pc: PC<V>)

  // hist: every state the map has had; author[v]: the thread that made version v; born[c]:
  // the version of the map when cell c was made; current: the closure readers take.
  datatype System<V> = System(
    policies: map<string, V>,
    hist: seq<map<string, V>>,
    author: seq<nat>,
    lock: Option<nat>,
    cells: seq<Cell<V>>,
    born: seq<nat>,
    current: nat,
    threads: seq<Thread<V>>)

  ghost predicate Initial<V>(s: System<V>) {
    && s.policies == map[] && s.hist == [map[]] && s.author == [0] && s.lock == None
    && s.cells == [Forced([], 0)] && s.born == [0] && s.current == 0
    && forall t :: 0 <= t < |s.threads| ==> s.threads[t].pc == Start
  }

  function Apply<V>(op: Op<V>, m: map<string, V>): map<string, V> {
    match op
    case Store(name, policy) => m[name := policy]
    case Delete(name) => m - {name}
    case _ => m
  }

  predicate Enabled<V>(s: System<V>, t: nat) {
    t < |s.threads| &&
    var pc := s.threads[t].pc;
    match pc
    case Start => s.threads[t].op.BadStore? || s.threads[t].op.Read? || s.lock.None?
    case Have(c) => c < |s.cells| && !s.cells[c].Running?
    case Forcing(_) => s.lock.None?
    case Released(c, _, _) => c < |s.cells|
    case Skipped => false
    case Finished(_) => false
    case Returned(_, _, _) => false
    case _ => true
  }

  function At<V>(s: System<V>, t: nat, pc: PC<V>): seq<Thread<V>>
    requires t < |s.threads|
  {
    s.threads[t := s.threads[t].(pc := pc)]
  }

  // A fresh closure becomes the current one.
  function Replace<V>(s: System<V>): System<V>
    requires |s.hist| > 0
  {
    s.(cells := s.cells + [Unforced], born := s.born + [|s.hist| - 1], current := |s.cells|)
  }

  // underLock: do deletions replace the closure before unlocking? (Stores always do.)
  ghost function Do<V>(underLock: bool, s: System<V>, t: nat): System<V>
    requires Enabled(s, t) && |s.hist| > 0
  {
    var op := s.threads[t].op;
    match s.threads[t].pc
    case Start =>
      if op.Read? then s.(threads := At(s, t, Have(s.current)))
      else if op.BadStore? then s.(threads := At(s, t, Skipped))
      else s.(lock := Some(t), threads := At(s, t, Locked))
    case Locked =>
      var m := Apply(op, s.policies);
      s.(policies := m, hist := s.hist + [m], author := s.author + [t], threads := At(s, t, Changed(|s.hist|)))
    case Changed(v) =>
      if op.Delete? && !underLock then s.(lock := None, threads := At(s, t, Unlocked(v)))
      else Replace(s.(threads := At(s, t, Replaced(v))))
    case Replaced(v) => s.(lock := None, threads := At(s, t, Finished(v)))
    case Unlocked(v) => Replace(s.(threads := At(s, t, Finished(v))))
    case Have(c) =>
      if s.cells[c].Forced? then s.(threads := At(s, t, Returned(c, s.cells[c].list, s.cells[c].ver)))
      else s.(cells := s.cells[c := Running(t)], threads := At(s, t, Forcing(c)))
    case Forcing(c) => s.(lock := Some(t), threads := At(s, t, Reading(c)))
    case Reading(c) => s.(threads := At(s, t, Computed(c, View(s.policies), |s.hist| - 1)))
    case Computed(c, l, v) => s.(lock := None, threads := At(s, t, Released(c, l, v)))
    case Released(c, l, v) => s.(cells := s.cells[c := Forced(l, v)], threads := At(s, t, Returned(c, l, v)))
  }

  // ---- The invariant -------------------------------------------------------------------

  predicate Holding<V>(pc: PC<V>) { pc.Locked? || pc.Changed? || pc.Replaced? || pc.Reading? || pc.Computed? }

  // Inside Once, forcing a cell.
  predicate Inside<V>(pc: PC<V>) { pc.Forcing? || pc.Reading? || pc.Computed? || pc.Released? }

  // A writer that has changed the map.
  predicate Wrote<V>(pc: PC<V>) { pc.Changed? || pc.Unlocked? || pc.Replaced? || pc.Finished? }

  // A value of cell c: the sorted view of a version not older than the cell.
  ghost predicate Snapshot<V>(s: System<V>, c: nat, l: seq<V>, v: nat) {
    c < |s.born| && v < |s.hist| && s.born[c] <= v && l == View(s.hist[v])
  }

  ghost predicate ThreadOk<V>(s: System<V>, t: nat) {
    t < |s.threads| && |s.hist| == |s.author| && s.current < |s.born| && |s.born| == |s.cells| ==>
      var op, pc := s.threads[t].op, s.threads[t].pc;
      && (Holding(pc) ==> s.lock == Some(t))
      && (pc.Locked? || Wrote(pc) ==> op.Store? || op.Delete?)
      && (pc.Have? || Inside(pc) || pc.Returned? ==> op.Read?)
      && (Wrote(pc) ==>
          0 < pc.ver < |s.hist| && s.author[pc.ver] == t && s.hist[pc.ver] == Apply(op, s.hist[pc.ver - 1]))
      && (pc.Replaced? || pc.Finished? ==> s.born[s.current] >= pc.ver)
      && (pc.Have? ==> pc.cell < |s.cells|)
      && (Inside(pc) ==> pc.cell < |s.cells| && s.cells[pc.cell] == Running(t))
      && (pc.Computed? || pc.Released? || pc.Returned? ==> Snapshot(s, pc.cell, pc.list, pc.ver))
  }

  ghost predicate CellOk<V>(s: System<V>, c: nat) {
    c < |s.cells| && |s.born| == |s.cells| && s.current < |s.cells| ==>
      && s.born[c] < |s.hist| && s.born[c] <= s.born[s.current]
      && (s.cells[c].Forced? ==> Snapshot(s, c, s.cells[c].list, s.cells[c].ver))
      && (s.cells[c].Running? ==>
          s.cells[c].runner < |s.threads| &&
          var pc := s.threads[s.cells[c].runner].pc; Inside(pc) && pc.cell == c)
  }

  ghost predicate VersionOk<V>(s: System<V>, v: nat) {
    0 < v < |s.hist| && |s.hist| == |s.author| ==>
      s.author[v] < |s.threads| && var pc := s.threads[s.author[v]].pc; Wrote(pc) && pc.ver == v
  }

  ghost predicate Shape<V>(s: System<V>) {
    && |s.hist| == |s.author| && |s.hist| > 0 && s.hist[|s.hist| - 1] == s.policies
    && |s.born| == |s.cells| && s.current + 1 == |s.cells|
    && (s.lock.Some? ==> s.lock.value < |s.threads| && Holding(s.threads[s.lock.value].pc))
  }

  ghost predicate Inv<V>(s: System<V>) {
    && Shape(s)
    && (forall t: nat :: ThreadOk(s, t)) && (forall c: nat :: CellOk(s, c)) && (forall v: nat :: VersionOk(s, v))
  }

  lemma InitialInv<V>(s: System<V>)
    requires Initial(s)
    ensures Inv(s)
  {
    forall t: nat ensures ThreadOk(s, t) {}
    forall c: nat ensures CellOk(s, c) { assert View(s.hist[0]) == []; }
  }

  lemma StepKeepsShape<V>(underLock: bool, s: System<V>, t: nat)
    requires Inv(s) && Enabled(s, t)
    ensures Shape(Do(underLock, s, t))
  {
    hide View;
    assert ThreadOk(s, t);
    if s.lock.Some? { assert ThreadOk(s, s.lock.value); }
  }

  // What a step of t leaves alone.
  ghost predicate Frame<V>(s: System<V>, s': System<V>, t: nat) {
    && |s'.threads| == |s.threads| && (forall i :: 0 <= i < |s.threads| && i != t ==> s'.threads[i] == s.threads[i])
    && s.hist <= s'.hist && s.author <= s'.author && s.born <= s'.born && |s.cells| <= |s'.cells| == |s'.born|
    && (forall c :: 0 <= c < |s.cells| ==>
        s'.cells[c] == s.cells[c] || s.cells[c].Unforced? || s.cells[c] == Running(t))
    && (s.lock.Some? && s.lock.value != t ==> s'.lock == s.lock)
    && s'.current < |s'.born| && s.current < |s.born| && s'.born[s'.current] >= s.born[s.current]
  }

  lemma StepFrame<V>(underLock: bool, s: System<V>, t: nat)
    requires Inv(s) && Enabled(s, t)
    ensures Frame(s, Do(underLock, s, t), t)
  {
    hide View;
    assert ThreadOk(s, t) && CellOk(s, s.current);
  }

  lemma StepKeepsOtherThread<V>(underLock: bool, s: System<V>, t: nat, i: nat)
    requires Inv(s) && Enabled(s, t) && i != t
    ensures ThreadOk(Do(underLock, s, t), i)
  {
    hide View;
    StepFrame(underLock, s, t);
    StepKeepsShape(underLock, s, t);
    hide Do, Enabled;
    assert ThreadOk(s, i);
    if i < |s.threads| && (s.threads[i].pc.Computed? || s.threads[i].pc.Released? || s.threads[i].pc.Returned?) {
      var pc := s.threads[i].pc;
      assert Snapshot(s, pc.cell, pc.list, pc.ver);
    }
  }

  lemma StepKeepsOwnThread<V>(underLock: bool, s: System<V>, t: nat)
    requires Inv(s) && Enabled(s, t)
    ensures ThreadOk(Do(underLock, s, t), t)
  {
    hide View;
    var pc := s.threads[t].pc;
    if pc.Have? || pc.Forcing? || pc.Reading? || pc.Computed? || pc.Released? {
      ReaderStepKeepsOwnThread(underLock, s, t);
    } else if pc.Locked? || pc.Changed? || pc.Replaced? || pc.Unlocked? {
      WriterStepKeepsOwnThread(underLock, s, t);
    }
  }

  lemma WriterStepKeepsOwnThread<V>(underLock: bool, s: System<V>, t: nat)
    requires Inv(s) && Enabled(s, t)
    requires var pc := s.threads[t].pc; pc.Locked? || pc.Changed? || pc.Replaced? || pc.Unlocked?
    ensures ThreadOk(Do(underLock, s, t), t)
  {
    hide View;
    assert ThreadOk(s, t);
  }

  lemma ReaderStepKeepsOwnThread<V>(underLock: bool, s: System<V>, t: nat)
    requires Inv(s) && Enabled(s, t)
    requires var pc := s.threads[t].pc; pc.Have? || pc.Forcing? || pc.Reading? || pc.Computed? || pc.Released?
    ensures ThreadOk(Do(underLock, s, t), t)
  {
    hide View;
    assert ThreadOk(s, t) && CellOk(s, s.threads[t].pc.cell);
  }

  lemma StepKeepsCell<V>(underLock: bool, s: System<V>, t: nat, c: nat)
    requires Inv(s) && Enabled(s, t)
    ensures CellOk(Do(underLock, s, t), c)
  {
    hide View, Do;
    if s.threads[t].op.Read? {
      ReaderStepKeepsCell(underLock, s, t, c);
    } else {
      WriterStepKeepsCell(underLock, s, t, c);
    }
  }

  lemma ReaderStepKeepsCell<V>(underLock: bool, s: System<V>, t: nat, c: nat)
    requires Inv(s) && Enabled(s, t) && s.threads[t].op.Read?
    ensures CellOk(Do(underLock, s, t), c)
  {
    hide View;
    assert ThreadOk(s, t) && CellOk(s, c);
  }

  lemma WriterStepKeepsCell<V>(underLock: bool, s: System<V>, t: nat, c: nat)
    requires Inv(s) && Enabled(s, t) && !s.threads[t].op.Read?
    ensures CellOk(Do(underLock, s, t), c)
  {
    hide View;
    assert ThreadOk(s, t) && CellOk(s, c) && CellOk(s, s.current);
  }

  lemma StepKeepsVersion<V>(underLock: bool, s: System<V>, t: nat, v: nat)
    requires Inv(s) && Enabled(s, t)
    ensures VersionOk(Do(underLock, s, t), v)
  {
    hide View;
    assert ThreadOk(s, t) && VersionOk(s, v);
  }

  lemma StepKeepsInv<V>(underLock: bool, s: System<V>, t: nat)
    requires Inv(s) && Enabled(s, t)
    ensures Inv(Do(underLock, s, t))
  {
    hide Do, View;
    var s' := Do(underLock, s, t);
    StepKeepsShape(underLock, s, t);
    forall i: nat ensures ThreadOk(s', i) {
      if i == t { StepKeepsOwnThread(underLock, s, t); } else { StepKeepsOtherThread(underLock, s, t, i); }
    }
    forall c: nat ensures CellOk(s', c) { StepKeepsCell(underLock, s, t, c); }
    forall v: nat ensures VersionOk(s', v) { StepKeepsVersion(underLock, s, t, v); }
  }

  // ---- Runs ----------------------------------------------------------------------------

  // The system after the threads of the schedule have each taken a step, in that order.
  ghost predicate Run<V>(underLock: bool, s: System<V>, schedule: seq<nat>, s': System<V>)
    requires Inv(s)
    decreases |schedule|
  {
    if schedule == [] then s' == s
    else
      Enabled(s, schedule[0]) &&
      (StepKeepsInv(underLock, s, schedule[0]);
       Run(underLock, Do(underLock, s, schedule[0]), schedule[1..], s'))
  }

  lemma {:induction false} RunKeepsInv<V>(underLock: bool, s: System<V>, schedule: seq<nat>, s': System<V>)
    requires Inv(s) && Run(underLock, s, schedule, s')
    ensures Inv(s')
    decreases |schedule|
  {
    hide Do, Enabled, View;
    if schedule != [] {
      StepKeepsInv(underLock, s, schedule[0]);
      RunKeepsInv(underLock, Do(underLock, s, schedule[0]), schedule[1..], s');
    }
  }

  // Every returned list is the sorted view of a state the map really had: version ver, made
  // by applying its author's operation to the version before.
  lemma ReadsAreSnapshots<V>(underLock: bool, s: System<V>, schedule: seq<nat>, s': System<V>, r: nat)
    requires Initial(s)
    requires Inv(s) && Run(underLock, s, schedule, s')
    requires r < |s'.threads| && s'.threads[r].pc.Returned?
    ensures var pc := s'.threads[r].pc; pc.ver < |s'.hist| && pc.list == View(s'.hist[pc.ver])
    ensures Inv(s') && forall v :: 0 < v < |s'.hist| ==>
      s'.author[v] < |s'.threads| && s'.hist[v] == Apply(s'.threads[s'.author[v]].op, s'.hist[v - 1])
  {
    hide View;
    RunKeepsInv(underLock, s, schedule, s');
    assert ThreadOk(s', r);
    forall v: nat | 0 < v < |s'.hist|
      ensures s'.author[v] < |s'.threads| && s'.hist[v] == Apply(s'.threads[s'.author[v]].op, s'.hist[v - 1])
    {
      assert VersionOk(s', v) && ThreadOk(s', s'.author[v]);
    }
  }

  // ---- Freshness -----------------------------------------------------------------------

  // From now on, reader r only sees versions from `floor` on.
  ghost predicate Floor<V>(s: System<V>, r: nat, floor: nat) {
    && s.current < |s.born| && floor <= s.born[s.current]
    && (r < |s.threads| ==>
        var pc := s.threads[r].pc;
        pc.Start? || !s.threads[r].op.Read? || (CellOfReader(pc) < |s.born| && floor <= s.born[CellOfReader(pc)]))
  }

  function CellOfReader<V>(pc: PC<V>): nat {
    if pc.Have? || pc.Forcing? || pc.Reading? || pc.Computed? || pc.Released? || pc.Returned? then pc.cell else 0
  }

  lemma FloorStep<V>(underLock: bool, s: System<V>, t: nat, r: nat, floor: nat)
    requires Inv(s) && Enabled(s, t) && Floor(s, r, floor)
    ensures Floor(Do(underLock, s, t), r, floor)
  {
    hide View;
    StepFrame(underLock, s, t);
    if r != t {
      hide Do;
    } else {
      assert ThreadOk(s, t);
    }
  }

  lemma {:induction false} FloorHolds<V>(
    underLock: bool, s: System<V>, schedule: seq<nat>, s': System<V>, r: nat, floor: nat)
    requires Inv(s) && Run(underLock, s, schedule, s') && Floor(s, r, floor)
    ensures Floor(s', r, floor)
    decreases |schedule|
  {
    hide View;
    if schedule != [] {
      hide Do, Enabled, Floor;
      StepKeepsInv(underLock, s, schedule[0]);
      FloorStep(underLock, s, schedule[0], r, floor);
      FloorHolds(underLock, Do(underLock, s, schedule[0]), schedule[1..], s', r, floor);
    }
  }

  // A read that starts after a change has returned sees that change or a later state.
  lemma ReadsAreFresh<V>(underLock: bool, s: System<V>, schedule: seq<nat>, s': System<V>, w: nat, r: nat)
    requires Inv(s) && Run(underLock, s, schedule, s')
    requires w < |s.threads| && s.threads[w].pc.Finished?
    requires r < |s.threads| && s.threads[r] == Thread(Read, Start)
    requires r < |s'.threads| && s'.threads[r].pc.Returned? && s'.threads[r].op.Read?
    ensures s'.threads[r].pc.ver >= s.threads[w].pc.ver
  {
    hide View;
    assert ThreadOk(s, w);
    FloorHolds(underLock, s, schedule, s', r, s.threads[w].pc.ver);
    RunKeepsInv(underLock, s, schedule, s');
    assert ThreadOk(s', r);
  }

  // ---- Staleness -----------------------------------------------------------------------

  // If the current closure has been forced and no longer shows the map, then the thread that
  // made the last change is between changing the map and replacing the closure.
  lemma StaleOnlyWhilePending<V>(s: System<V>)
    requires Inv(s)
    requires s.cells[s.current].Forced? && s.cells[s.current].list != View(s.policies)
    ensures var t := s.author[|s.hist| - 1];
      t < |s.threads| && (s.threads[t].pc == Changed(|s.hist| - 1) || s.threads[t].pc == Unlocked(|s.hist| - 1))
  {
    hide View;
    var v := |s.hist| - 1;
    assert CellOk(s, s.current) && VersionOk(s, v) && ThreadOk(s, s.author[v]);
  }

  // ---- Progress ------------------------------------------------------------------------

  predicate Ended<V>(pc: PC<V>) { pc.Skipped? || pc.Finished? || pc.Returned? }

  lemma HolderCanStep<V>(s: System<V>)
    requires Inv(s) && s.lock.Some?
    ensures Enabled(s, s.lock.value)
  {
    hide View;
    assert ThreadOk(s, s.lock.value);
  }

  // No reachable state with an unfinished thread is stuck.
  lemma NeverStuck<V>(s: System<V>, t: nat) returns (u: nat)
    requires Inv(s) && t < |s.threads| && !Ended(s.threads[t].pc)
    ensures Enabled(s, u)
  {
    hide View;
    assert ThreadOk(s, t);
    if Enabled(s, t) {
      u := t;
    } else if s.lock.Some? {
      HolderCanStep(s);
      u := s.lock.value;
    } else {
      var c := s.threads[t].pc.cell;
      assert CellOk(s, c);
      u := s.cells[c].runner;
      assert ThreadOk(s, u);
    }
  }

  // At most seven steps are left to any thread.
  function Left<V>(pc: PC<V>): nat {
    match pc
    case Start => 7
    case Locked => 6 case Changed(_) => 5 case Replaced(_) => 4 case Unlocked(_) => 4
    case Have(_) => 6 case Forcing(_) => 5 case Reading(_) => 4 case Computed(_, _, _) => 3 case Released(_, _, _) => 2
    case _ => 0
  }

  function TotalLeft<V>(threads: seq<Thread<V>>): nat {
    if threads == [] then 0 else Left(threads[0].pc) + TotalLeft(threads[1..])
  }

  lemma {:induction false} StepLeavesLess<V>(threads: seq<Thread<V>>, t: nat, pc: PC<V>)
    requires t < |threads| && Left(pc) < Left(threads[t].pc)
    ensures TotalLeft(threads[t := threads[t].(pc := pc)]) < TotalLeft(threads)
    decreases t
  {
    hide View;
    var after := threads[t := threads[t].(pc := pc)];
    if t > 0 {
      StepLeavesLess(threads[1..], t - 1, pc);
      assert after[1..] == threads[1..][t - 1 := threads[1..][t - 1].(pc := pc)];
    } else {
      assert after[1..] == threads[1..];
    }
  }

  lemma StepDecreases<V>(underLock: bool, s: System<V>, t: nat)
    requires Inv(s) && Enabled(s, t)
    ensures TotalLeft(Do(underLock, s, t).threads) < TotalLeft(s.threads)
  {
    hide TotalLeft, View;
    assert ThreadOk(s, t);
    var pc := Do(underLock, s, t).threads[t].pc;
    StepLeavesLess(s.threads, t, pc);
    assert Do(underLock, s, t).threads == s.threads[t := s.threads[t].(pc := pc)];
  }

  lemma {:induction false} RunsAreShort<V>(underLock: bool, s: System<V>, schedule: seq<nat>, s': System<V>)
    requires Inv(s) && Run(underLock, s, schedule, s')
    ensures |schedule| + TotalLeft(s'.threads) <= TotalLeft(s.threads)
    decreases |schedule|
  {
    hide View;
    if schedule != [] {
      hide Do, Enabled, TotalLeft;
      StepKeepsInv(underLock, s, schedule[0]);
      StepDecreases(underLock, s, schedule[0]);
      RunsAreShort(underLock, Do(underLock, s, schedule[0]), schedule[1..], s');
    }
  }

  // Every run can only go on for so long, and one that cannot go on has finished every call.
  lemma AllCallsFinish<V>(underLock: bool, s: System<V>, schedule: seq<nat>, s': System<V>)
    requires Inv(s) && Run(underLock, s, schedule, s')
    ensures |schedule| <= TotalLeft(s.threads)
    ensures (forall u: nat :: !Enabled(s', u)) ==> forall t :: 0 <= t < |s'.threads| ==> Ended(s'.threads[t].pc)
  {
    hide View;
    RunsAreShort(underLock, s, schedule, s');
    RunKeepsInv(underLock, s, schedule, s');
    hide Enabled;
    if t: nat :| t < |s'.threads| && !Ended(s'.threads[t].pc) {
      var u := NeverStuck(s', t);
    }
  }
}
