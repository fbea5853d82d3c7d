/** The fan-out and join of SendPolicy (pkg/stream/sender/sender.go:75-97): one goroutine per
    stream sends its result on a channel and then signals the wait group; the caller waits for
    the group, closes the channel and drains it.

    A channel of capacity k holds at most k results that nobody has received; with k = 0 a
    send only completes with a receiver. The caller receives only after the wait, so until
    then a send completes exactly when the buffer has room. The code makes the channel with
    no capacity. */
module FanOut {

  // Sending: before errCh <- ...; Sent: before wg.Done(); Gone: returned.
  datatype Worker = Sending | Sent | Gone

  // Waiting in wg.Wait; Waited; the channel Closed and some results drained; Returned.
  datatype Caller = Waiting | Waited | Draining | Returned

  datatype Join = Join(workers: seq<Worker>, buffered: nat, drained: nat, caller: Caller)

  datatype Move = Send(i: nat) | Done(i: nat) | PassWait | Close | Receive | Finish

  function Begin(n: nat): Join { Join(seq(n, i => Sending), 0, 0, Waiting) }

  predicate CanMove(j: Join, k: nat, m: Move) {
    match m
    case Send(i) => i < |j.workers| && j.workers[i].Sending? && j.buffered < k
    case Done(i) => i < |j.workers| && j.workers[i].Sent?
    case PassWait => j.caller.Waiting? && forall i :: 0 <= i < |j.workers| ==> j.workers[i].Gone?
    case Close => j.caller.Waited?
    case Receive => j.caller.Draining? && j.buffered > 0
    case Finish => j.caller.Draining? && j.buffered == 0
  }

  function After(j: Join, k: nat, m: Move): Join
    requires CanMove(j, k, m)
  {
    match m
    case Send(i) => j.(workers := j.workers[i := Sent], buffered := j.buffered + 1)
    case Done(i) => j.(workers := j.workers[i := Gone])
    case PassWait => j.(caller := Waited)
    case Close => j.(caller := Draining)
    case Receive => j.(buffered := j.buffered - 1, drained := j.drained + 1)
    case Finish => j.(caller := Returned)
  }

  ghost predicate Run(j: Join, k: nat, moves: seq<Move>, j': Join)
    decreases |moves|
  {
    if moves == [] then j' == j
    else CanMove(j, k, moves[0]) && Run(After(j, k, moves[0]), k, moves[1..], j')
  }

  // Workers that have sent.
  function SentCount(ws: seq<Worker>): nat {
    if ws == [] then 0 else (if ws[0].Sending? then 0 else 1) + SentCount(ws[1..])
  }

  predicate PastWait(j: Join) { !j.caller.Waiting? }

  ghost predicate Inv(j: Join, k: nat, n: nat) {
    && |j.workers| == n
    && j.buffered <= k && j.buffered + j.drained == SentCount(j.workers)
    && (PastWait(j) ==> forall i :: 0 <= i < n ==> j.workers[i].Gone?)
    && (j.caller.Waiting? || j.caller.Waited? ==> j.drained == 0)
    && (PastWait(j) ==> n <= k)
    && (j.caller.Returned? ==> j.buffered == 0)
  }

  lemma {:induction false} CountAfterSend(ws: seq<Worker>, i: nat, w: Worker)
    requires i < |ws| && !w.Sending?
    ensures SentCount(ws[i := w]) == SentCount(ws) + if ws[i].Sending? then 1 else 0
    decreases i
  {
    if i > 0 {
      assert ws[i := w][1..] == ws[1..][i - 1 := w];
      CountAfterSend(ws[1..], i - 1, w);
    } else {
      assert ws[i := w][1..] == ws[1..];
    }
  }

  lemma {:induction false} CountAll(ws: seq<Worker>)
    ensures SentCount(ws) <= |ws|
    ensures SentCount(ws) == |ws| <==> forall i :: 0 <= i < |ws| ==> !ws[i].Sending?
    decreases |ws|
  {
    if ws != [] {
      CountAll(ws[1..]);
      var rest := ws[1..];
      assert (forall i :: 0 <= i < |rest| ==> !rest[i].Sending?) <==> forall i :: 0 < i < |ws| ==> !ws[i].Sending? by {
        assert forall i :: 0 < i < |ws| ==> ws[i] == ws[1..][i - 1];
      }
    }
  }

  lemma MoveKeepsInv(j: Join, k: nat, n: nat, m: Move)
    requires Inv(j, k, n) && CanMove(j, k, m)
    ensures Inv(After(j, k, m), k, n)
  {
    match m
    case Send(i) => CountAfterSend(j.workers, i, Sent);
    case Done(i) => CountAfterSend(j.workers, i, Gone);
    case PassWait => CountAll(j.workers);
    case _ =>
  }

  lemma {:induction false} RunKeepsInv(j: Join, k: nat, n: nat, moves: seq<Move>, j': Join)
    requires Inv(j, k, n) && Run(j, k, moves, j')
    ensures Inv(j', k, n)
    decreases |moves|
  {
    if moves != [] {
      MoveKeepsInv(j, k, n, moves[0]);
      RunKeepsInv(After(j, k, moves[0]), k, n, moves[1..], j');
    }
  }

  lemma {:induction false} NobodySentYet(ws: seq<Worker>)
    requires forall i :: 0 <= i < |ws| ==> ws[i].Sending?
    ensures SentCount(ws) == 0
    decreases |ws|
  {
    if ws != [] { NobodySentYet(ws[1..]); }
  }

  lemma BeginInv(k: nat, n: nat)
    ensures Inv(Begin(n), k, n)
  {
    NobodySentYet(Begin(n).workers);
  }

  // Progress: what is still to be done, two moves a worker, one for each buffered result.
  function WorkerLeft(ws: seq<Worker>): nat {
    if ws == [] then 0
    else (match ws[0] case Sending => 3 case Sent => 1 case Gone => 0) + WorkerLeft(ws[1..])
  }

  function Left(j: Join): nat {
    WorkerLeft(j.workers) + j.buffered +
      match j.caller case Waiting => 3 case Waited => 2 case Draining => 1 case Returned => 0
  }

  lemma {:induction false} WorkerMoves(ws: seq<Worker>, i: nat, w: Worker)
    requires i < |ws|
    ensures WorkerLeft(ws[i := w]) + WorkerLeft([ws[i]]) == WorkerLeft(ws) + WorkerLeft([w])
    decreases i
  {
    assert [w][1..] == [] && [ws[i]][1..] == [];
    if i > 0 {
      assert ws[i := w][1..] == ws[1..][i - 1 := w];
      WorkerMoves(ws[1..], i - 1, w);
    } else {
      assert ws[i := w][1..] == ws[1..];
    }
  }

  lemma MoveDecreases(j: Join, k: nat, m: Move)
    requires CanMove(j, k, m)
    ensures Left(After(j, k, m)) < Left(j)
  {
    match m
    case Send(i) => WorkerMoves(j.workers, i, Sent); assert [Sent][1..] == [] && [Sending][1..] == [];
    case Done(i) => WorkerMoves(j.workers, i, Gone); assert [Sent][1..] == [] && [Gone][1..] == [];
    case _ =>
  }

  // With enough capacity nothing is ever stuck short of the caller's return.
  lemma CanGoOn(j: Join, k: nat, n: nat) returns (m: Move)
    requires Inv(j, k, n) && n <= k && !j.caller.Returned?
    ensures CanMove(j, k, m)
  {
    if i :| 0 <= i < n && j.workers[i].Sent? {
      m := Done(i);
    } else if i :| 0 <= i < n && j.workers[i].Sending? {
      CountAll(j.workers);
      m := Send(i);
    } else {
      m := match j.caller
        case Waiting => PassWait
        case Waited => Close
        case _ => if j.buffered > 0 then Receive else Finish;
    }
  }

  lemma {:induction false} RunsToReturn(j: Join, k: nat, n: nat) returns (moves: seq<Move>, j': Join)
    requires Inv(j, k, n) && n <= k
    ensures Run(j, k, moves, j') && j'.caller.Returned?
    decreases Left(j)
  {
    if j.caller.Returned? {
      moves, j' := [], j;
    } else {
      var m := CanGoOn(j, k, n);
      MoveKeepsInv(j, k, n, m);
      MoveDecreases(j, k, m);
      var rest;
      rest, j' := RunsToReturn(After(j, k, m), k, n);
      moves := [m] + rest;
      assert moves[1..] == rest;
    }
  }

  ghost predicate PassesWait(n: nat, k: nat, moves: seq<Move>, j: Join) {
    Run(Begin(n), k, moves, j) && PastWait(j)
  }

  // The wait is passed in some run exactly when the channel can hold every result; a caller
  // that returns has drained one result for each stream.
  lemma WaitPassesIffRoomForAll(n: nat, k: nat)
    ensures (exists moves, j :: PassesWait(n, k, moves, j)) <==> n <= k
    ensures forall moves, j :: Run(Begin(n), k, moves, j) && j.caller.Returned? ==> j.drained == n
  {
    BeginInv(k, n);
    forall moves, j | Run(Begin(n), k, moves, j)
      ensures PastWait(j) ==> n <= k
      ensures j.caller.Returned? ==> j.drained == n
    {
      RunKeepsInv(Begin(n), k, n, moves, j);
      CountAll(j.workers);
    }
    if n <= k {
      var moves, j := RunsToReturn(Begin(n), k, n);
      assert PassesWait(n, k, moves, j);
    }
  }

  // A result is only ever sent on an open channel: every worker is gone before the close.
  lemma NeverSendsOnClosed(n: nat, k: nat, moves: seq<Move>, j: Join, i: nat)
    requires Run(Begin(n), k, moves, j) && (j.caller.Draining? || j.caller.Returned?)
    ensures !CanMove(j, k, Send(i)) && (i < n ==> i < |j.workers| && j.workers[i].Gone?)
  {
    BeginInv(k, n);
    RunKeepsInv(Begin(n), k, n, moves, j);
  }

  // As written, with no capacity and at least one stream, nothing moves at all: every worker
  // and the caller stay where they began.
  lemma UnbufferedBlocksForever(n: nat, moves: seq<Move>, j: Join)
    requires n > 0 && Run(Begin(n), 0, moves, j)
    ensures moves == [] && j == Begin(n)
  {
    assert Begin(n).workers[0].Sending?;
  }
}
