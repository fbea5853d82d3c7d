/** Requests answered while messages are applied: the handler's decision on what a concurrent read
    of the listener's cache returns (pkg/httpauth/handlers.go:46-71 over
    pkg/stream/listener/listener.go:61-63 and 144-172). */
module Serving {
  import opened Cel
  import opened Options
  import opened Compiler
  import opened Handler
  import opened Listener
  import opened Order
  import Cache
  import Monotone
  import GoingBack

  // The call of processPolicy that a message becomes.
  ghost function CallOf(q: Message): Cache.Op<CompiledPolicy> {
    if q.delete then Cache.Delete(q.name)
    else if CompiledMessage(q).Some? then Cache.Store(q.name, CompiledMessage(q).value)
    else Cache.BadStore(q.name)
  }

  lemma CallApplies(q: Message, m: PolicyMap)
    ensures Cache.Apply(CallOf(q), m) == ApplyMessage(m, q)
  {
    hide CompiledMessage;
  }

  // Every thread is a request's read, or processes the message it was started for.
  ghost predicate Serves(s: Cache.System<CompiledPolicy>, work: seq<Option<Message>>) {
    |s.threads| == |work| &&
    forall t :: 0 <= t < |work| ==> s.threads[t].op == if work[t].Some? then CallOf(work[t].value) else Cache.Read
  }

  // The messages behind the first v versions of the map, in the order of their changes.
  ghost function History(s: Cache.System<CompiledPolicy>, work: seq<Option<Message>>, v: nat): seq<Message>
    requires Cache.Inv(s) && Serves(s, work) && v < |s.hist|
    ensures |History(s, work, v)| == v
  {
    if v == 0 then []
    else
      AuthorHasMessage(s, work, v);
      History(s, work, v - 1) + [work[s.author[v]].value]
  }

  lemma {:induction false} HistoryAt(s: Cache.System<CompiledPolicy>, work: seq<Option<Message>>, v: nat, i: nat)
    requires Cache.Inv(s) && Serves(s, work) && i < v < |s.hist| == |s.author|
    ensures s.author[i + 1] < |work| && work[s.author[i + 1]] == Some(History(s, work, v)[i])
    decreases v
  {
    hide Cache.Inv, Serves;
    AuthorHasMessage(s, work, v);
    if i < v - 1 { HistoryAt(s, work, v - 1, i); }
  }

  // Message i is the one that the author of version i + 1 processed.
  ghost predicate Authored(s: Cache.System<CompiledPolicy>, work: seq<Option<Message>>, ms: seq<Message>) {
    |ms| < |s.author| && forall i :: 0 <= i < |ms| ==> AuthorOf(s, work, ms, i)
  }

  ghost predicate AuthorOf(s: Cache.System<CompiledPolicy>, work: seq<Option<Message>>, ms: seq<Message>, i: int) {
    0 <= i < |ms| < |s.author| ==> s.author[i + 1] < |work| && work[s.author[i + 1]] == Some(ms[i])
  }

  lemma HistoryIsAuthored(s: Cache.System<CompiledPolicy>, work: seq<Option<Message>>, v: nat)
    requires Cache.Inv(s) && Serves(s, work) && v < |s.hist|
    ensures Authored(s, work, History(s, work, v))
  {
    assert |s.author| == |s.hist|;
    hide Cache.Inv, Serves;
    var ms := History(s, work, v);
    forall i | 0 <= i < v ensures AuthorOf(s, work, ms, i) { HistoryAt(s, work, v, i); }
  }

  lemma AuthorHasMessage(s: Cache.System<CompiledPolicy>, work: seq<Option<Message>>, v: nat)
    requires Cache.Inv(s) && Serves(s, work) && 0 < v < |s.hist|
    ensures s.author[v] < |work| && work[s.author[v]].Some?
    ensures s.hist[v] == ApplyMessage(s.hist[v - 1], work[s.author[v]].value)
  {
    hide View;
    assert Cache.VersionOk(s, v) && Cache.ThreadOk(s, s.author[v]);
    CallApplies(work[s.author[v]].value, s.hist[v - 1]);
    hide CompiledMessage, ApplyMessage;
  }

  lemma {:induction false} HistoryApplies(s: Cache.System<CompiledPolicy>, work: seq<Option<Message>>, v: nat)
    requires Cache.Inv(s) && Serves(s, work) && v < |s.hist| && s.hist[0] == map[]
    ensures s.hist[v] == ApplyAll(map[], History(s, work, v))
    decreases v
  {
    hide CompiledMessage, ApplyMessage;
    assert |s.hist| == |s.author|;
    hide Cache.Inv, Serves;
    if v > 0 {
      HistoryApplies(s, work, v - 1);
      AuthorHasMessage(s, work, v);
      var q := work[s.author[v]].value;
      ApplyAppend(map[], History(s, work, v - 1), [q]);
      assert [q][1..] == [];
      assert ApplyAll(s.hist[v - 1], [q]) == ApplyMessage(s.hist[v - 1], q);
    }
  }

  // In every interleaving, a request that starts its read in s is answered as the least deciding
  // name of the map after some of the messages, each applied once in the order of their changes,
  // says; and every message whose processing had returned before is among them.
  lemma ServedAnswer(
    work: seq<Option<Message>>, s0: Cache.System<CompiledPolicy>, first: seq<nat>, s: Cache.System<CompiledPolicy>,
    second: seq<nat>, s': Cache.System<CompiledPolicy>, r: nat, q: Request)
    requires Cache.Initial(s0) && Cache.Inv(s0) && Serves(s0, work) && Cache.Run(false, s0, first, s)
    requires Cache.Inv(s) && Cache.Run(false, s, second, s')
    requires r < |s.threads| && s.threads[r] == Cache.Thread(Cache.Read, Cache.Start)
    requires r < |s'.threads| && s'.threads[r].pc.Returned?
    ensures Cache.Inv(s') && Serves(s', work) && s'.threads[r].pc.ver < |s'.hist|
    ensures Decide(s'.threads[r].pc.list, q) ==
      LeastDecides(ApplyAll(map[], History(s', work, s'.threads[r].pc.ver)), q)
    ensures Authored(s', work, History(s', work, s'.threads[r].pc.ver))
    ensures forall w :: 0 <= w < |s.threads| && s.threads[w].pc.Finished? ==>
      s.threads[w].pc.ver <= s'.threads[r].pc.ver && s'.author[s.threads[w].pc.ver] == w
  {
    hide View, Cache.Run, Cache.Inv, Serves, History, Decide, LeastDecides, ApplyAll;
    var v := ReadReturns(work, s0, first, s, second, s', r);
    HistoryApplies(s', work, v);
    LeastNameDecides(s'.hist[v], q);
    HistoryIsAuthored(s', work, v);
    forall w: nat | w < |s.threads| && s.threads[w].pc.Finished?
      ensures s.threads[w].pc.ver <= v && s'.author[s.threads[w].pc.ver] == w
    {
      Cache.ReadsAreFresh(false, s, second, s', w, r);
      FinishedStays(s, second, s', w);
    }
  }

  lemma ReadReturns(
    work: seq<Option<Message>>, s0: Cache.System<CompiledPolicy>, first: seq<nat>, s: Cache.System<CompiledPolicy>,
    second: seq<nat>, s': Cache.System<CompiledPolicy>, r: nat) returns (v: nat)
    requires Cache.Initial(s0) && Cache.Inv(s0) && Serves(s0, work) && Cache.Run(false, s0, first, s)
    requires Cache.Inv(s) && Cache.Run(false, s, second, s')
    requires r < |s.threads| && s.threads[r] == Cache.Thread(Cache.Read, Cache.Start)
    requires r < |s'.threads| && s'.threads[r].pc.Returned?
    ensures Cache.Inv(s') && Serves(s', work) && s'.threads[r].op.Read?
    ensures v == s'.threads[r].pc.ver < |s'.hist| == |s'.author| && s'.hist[0] == map[]
    ensures s'.threads[r].pc.list == View(s'.hist[v])
  {
    hide View, Cache.Run;
    Cache.RunKeepsInv(false, s, second, s');
    GoingBack.RunKeepsCalls(false, s0, first, s);
    GoingBack.RunKeepsCalls(false, s, second, s');
    Monotone.RunExtends(false, s0, first, s);
    Monotone.RunExtends(false, s, second, s');
    v := s'.threads[r].pc.ver;
    assert Cache.ThreadOk(s', r);
  }

  lemma {:induction false} FinishedStays(
    s: Cache.System<CompiledPolicy>, schedule: seq<nat>, s': Cache.System<CompiledPolicy>, w: nat)
    requires Cache.Inv(s) && Cache.Run(false, s, schedule, s') && w < |s.threads| && s.threads[w].pc.Finished?
    ensures Cache.Inv(s') && s.threads[w].pc.ver < |s'.hist| == |s'.author| && s'.author[s.threads[w].pc.ver] == w
    decreases |schedule|
  {
    hide View;
    assert Cache.ThreadOk(s, w);
    if schedule != [] {
      Cache.StepFrame(false, s, schedule[0]);
      assert schedule[0] != w;
      hide Cache.Do, Cache.Enabled;
      Cache.StepKeepsInv(false, s, schedule[0]);
      FinishedStays(Cache.Do(false, s, schedule[0]), schedule[1..], s', w);
    }
  }
}
