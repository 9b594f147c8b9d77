/** `Promise.all` with a ceiling: workers that share one counter
    (apps/control-api/src/analytics/analytics.service.ts:642-661). */
module Workers {
  import opened Domain

  /** A worker between two of its atomic turns. */
  datatype Worker = Ready | Running(index: nat) | Finished | Rejected

  /** The shared counter and result slots, and `started`: the indexes handed to `run`, in order. */
  datatype State<T> = State(next: nat, workers: seq<Worker>, results: seq<Option<T>>, started: seq<nat>)

  /** A worker takes the next index or stops, or the `run` it awaits comes back. */
  datatype Step = Take(worker: nat) | Return(worker: nat)

  function Start<T>(n: nat, limit: int): (s: State<T>) {
    var count := if limit < n then (if limit < 0 then 0 else limit) else n;
    State(0, seq(count, i => Ready), seq(n, i => None), [])
  }

  predicate Can<T>(s: State<T>, step: Step) {
    step.worker < |s.workers| && if step.Take? then s.workers[step.worker].Ready? else s.workers[step.worker].Running?
  }

  /** One turn; a step no worker can take changes nothing. `run(i)` is what item `i` turns into, or
      nothing where the call rejects, which ends its worker and with it the whole map. */
  function Do<T>(s: State<T>, step: Step, n: nat, run: nat -> Option<T>): (r: State<T>) {
    if !Can(s, step) then s
    else if step.Take? then
      if s.next >= n then s.(next := s.next + 1, workers := s.workers[step.worker := Finished])
      else s.(next := s.next + 1, workers := s.workers[step.worker := Running(s.next)], started := s.started + [s.next])
    else
      var i := s.workers[step.worker].index;
      if run(i).None? then s.(workers := s.workers[step.worker := Rejected])
      else s.(workers := s.workers[step.worker := Ready],
              results := if i < |s.results| then s.results[i := run(i)] else s.results)
  }

  function Run<T>(s: State<T>, steps: seq<Step>, n: nat, run: nat -> Option<T>): (r: State<T>) {
    if steps == [] then s else Do(Run(s, steps[..|steps| - 1], n, run), steps[|steps| - 1], n, run)
  }

  predicate IsRunning<T>(s: State<T>, i: nat) {
    exists w | 0 <= w < |s.workers| :: s.workers[w] == Running(i)
  }

  predicate AnyRejected(workers: seq<Worker>) { exists w | 0 <= w < |workers| :: workers[w].Rejected? }

  predicate Back<T>(s: State<T>, i: nat) { !IsRunning(s, i) }

  function Taken<T>(s: State<T>, n: nat): nat { if s.next < n then s.next else n }

  ghost predicate Inv<T>(s: State<T>, n: nat, limit: int, run: nat -> Option<T>) {
    && |s.results| == n && |s.workers| == |Start<T>(n, limit).workers|
    && (s.workers == [] ==> s.next == 0)
    // Indexes go out in order, each once.
    && |s.started| == Taken(s, n) && (forall i | 0 <= i < |s.started| :: s.started[i] == i)
    // One worker per index in flight, and only indexes handed out are.
    && (forall w | 0 <= w < |s.workers| && s.workers[w].Running? :: s.workers[w].index < Taken(s, n))
    && (forall v, w | 0 <= v < w < |s.workers| && s.workers[v].Running? && s.workers[w].Running? ::
          s.workers[v].index != s.workers[w].index)
    // A slot holds its own result once its index is back, and nothing before.
    && (forall i | 0 <= i < n :: s.results[i] == if i < Taken(s, n) && !IsRunning(s, i) then run(i) else None)
    && (forall w | 0 <= w < |s.workers| && s.workers[w].Finished? :: s.next > n)
    // A worker was lost exactly when an index that is back came back with nothing.
    && (AnyRejected(s.workers) <==> exists i | 0 <= i < Taken(s, n) :: Back(s, i) && run(i).None?)
  }

  lemma StartIsInv<T>(n: nat, limit: int, run: nat -> Option<T>)
    ensures Inv(Start(n, limit), n, limit, run)
  {
  }

  lemma TakeKeepsInv<T>(s: State<T>, w: nat, n: nat, limit: int, run: nat -> Option<T>)
    requires Inv(s, n, limit, run) && Can(s, Take(w))
    ensures Inv(Do(s, Take(w), n, run), n, limit, run)
  {
    var r := Do(s, Take(w), n, run);
    forall i | 0 <= i < n ensures r.results[i] == if i < Taken(r, n) && !IsRunning(r, i) then run(i) else None {
      if i == s.next {
        assert r.workers[w] == Running(i);
      } else {
        SameElsewhere(s, r, w, i);
      }
    }
    TakeKeepsRejected(s, w, n, limit, run);
  }

  lemma TakeKeepsRejected<T>(s: State<T>, w: nat, n: nat, limit: int, run: nat -> Option<T>)
    requires Inv(s, n, limit, run) && Can(s, Take(w))
    ensures var r := Do(s, Take(w), n, run);
            AnyRejected(r.workers) <==> exists i | 0 <= i < Taken(r, n) :: Back(r, i) && run(i).None?
  {
    var r := Do(s, Take(w), n, run);
    assert forall v | 0 <= v < |s.workers| :: r.workers[v].Rejected? <==> s.workers[v].Rejected?;
    if s.next < n { assert r.workers[w] == Running(s.next); }
    forall i | 0 <= i < Taken(s, n) ensures Back(r, i) <==> Back(s, i) { SameElsewhere(s, r, w, i); }
  }

  lemma SameElsewhere<T>(s: State<T>, r: State<T>, w: nat, i: nat)
    requires w < |s.workers| && |r.workers| == |s.workers|
    requires forall v | 0 <= v < |s.workers| && v != w :: r.workers[v] == s.workers[v]
    requires s.workers[w] != Running(i) && r.workers[w] != Running(i)
    ensures IsRunning(s, i) <==> IsRunning(r, i)
  {
    if IsRunning(s, i) {
      var v :| 0 <= v < |s.workers| && s.workers[v] == Running(i);
      assert r.workers[v] == Running(i);
    }
    if IsRunning(r, i) {
      var v :| 0 <= v < |r.workers| && r.workers[v] == Running(i);
      assert s.workers[v] == Running(i);
    }
  }

  lemma ReturnKeepsInv<T>(s: State<T>, w: nat, n: nat, limit: int, run: nat -> Option<T>)
    requires Inv(s, n, limit, run) && Can(s, Return(w))
    ensures Inv(Do(s, Return(w), n, run), n, limit, run)
  {
    var r := Do(s, Return(w), n, run);
    var k := s.workers[w].index;
    forall i | 0 <= i < n ensures r.results[i] == if i < Taken(r, n) && !IsRunning(r, i) then run(i) else None {
      if i == k {
        assert !IsRunning(r, k);
      } else {
        SameElsewhere(s, r, w, i);
      }
    }
    ReturnKeepsRejected(s, w, n, limit, run);
  }

  lemma ReturnKeepsRejected<T>(s: State<T>, w: nat, n: nat, limit: int, run: nat -> Option<T>)
    requires Inv(s, n, limit, run) && Can(s, Return(w))
    ensures var r := Do(s, Return(w), n, run);
            AnyRejected(r.workers) <==> exists i | 0 <= i < Taken(r, n) :: Back(r, i) && run(i).None?
  {
    var r := Do(s, Return(w), n, run);
    var k := s.workers[w].index;
    forall i | 0 <= i < Taken(s, n) && i != k ensures Back(r, i) <==> Back(s, i) { SameElsewhere(s, r, w, i); }
    assert Back(r, k) && !Back(s, k);
    assert forall v | 0 <= v < |s.workers| && v != w :: r.workers[v] == s.workers[v];
    if run(k).None? {
      assert r.workers[w].Rejected?;
    } else {
      assert forall v | 0 <= v < |s.workers| :: r.workers[v].Rejected? <==> s.workers[v].Rejected?;
    }
  }

  lemma {:induction false} EveryRunKeepsInv<T>(steps: seq<Step>, n: nat, limit: int, run: nat -> Option<T>)
    ensures Inv(Run(Start(n, limit), steps, n, run), n, limit, run)
  {
    if steps == [] {
      StartIsInv(n, limit, run);
    } else {
      var k := |steps| - 1;
      EveryRunKeepsInv(steps[..k], n, limit, run);
      var s := Run(Start(n, limit), steps[..k], n, run);
      if Can(s, steps[k]) {
        if steps[k].Take? { TakeKeepsInv(s, steps[k].worker, n, limit, run); }
        else { ReturnKeepsInv(s, steps[k].worker, n, limit, run); }
      }
    }
  }

  function InFlight(workers: seq<Worker>): nat {
    if workers == [] then 0 else InFlight(workers[..|workers| - 1]) + if workers[|workers| - 1].Running? then 1 else 0
  }

  lemma {:induction false} InFlightAtMost(workers: seq<Worker>)
    ensures InFlight(workers) <= |workers|
  {
    if workers != [] { InFlightAtMost(workers[..|workers| - 1]); }
  }

  predicate AllFinished(workers: seq<Worker>) { forall w | 0 <= w < |workers| :: workers[w].Finished? }

  /** Under every interleaving each index starts at most once and in order, at most `limit` are in
      flight, and a slot that is filled holds the result of its own item. */
  lemma EveryRunIsBounded<T>(steps: seq<Step>, n: nat, limit: int, run: nat -> Option<T>)
    ensures var s := Run(Start(n, limit), steps, n, run);
            && InFlight(s.workers) <= (if limit < 0 then 0 else limit)
            && |s.started| <= n && (forall i | 0 <= i < |s.started| :: s.started[i] == i)
            && |s.results| == n && forall i | 0 <= i < n && s.results[i].Some? :: s.results[i] == run(i)
  {
    EveryRunKeepsInv(steps, n, limit, run);
    InFlightAtMost(Run(Start(n, limit), steps, n, run).workers);
  }

  /** Every slot holds the output of its own item, and every index ran once. */
  predicate Complete<T(==)>(s: State<T>, n: nat, run: nat -> Option<T>) {
    |s.results| == n && |s.started| == n && forall i | 0 <= i < n :: run(i).Some? && s.results[i] == run(i)
  }

  /** When all workers have finished, every index ran exactly once and result `i` is the output for
      item `i`; that is, exactly when the limit starts a worker at all or there is nothing to do. */
  lemma FinishedIsComplete<T>(steps: seq<Step>, n: nat, limit: int, run: nat -> Option<T>)
    ensures var s := Run(Start(n, limit), steps, n, run);
            AllFinished(s.workers) ==> (Complete(s, n, run) <==> limit >= 1 || n == 0)
  {
    EveryRunKeepsInv(steps, n, limit, run);
    var s := Run(Start(n, limit), steps, n, run);
    hide Run;
    if AllFinished(s.workers) && s.workers != [] {
      assert s.workers[0].Finished?;
      assert forall i | 0 <= i < n :: Back(s, i);
    }
  }

  predicate AllSettled(workers: seq<Worker>) {
    forall w | 0 <= w < |workers| :: workers[w].Finished? || workers[w].Rejected?
  }

  /** A worker is lost only to a call that rejects, and once no worker can move the map has resolved
      exactly when no item's call rejects. */
  lemma ResolvesIffAllSucceed<T>(steps: seq<Step>, n: nat, limit: int, run: nat -> Option<T>)
    requires limit >= 1 || n == 0
    ensures var s := Run(Start(n, limit), steps, n, run);
            && (AnyRejected(s.workers) ==> exists i | 0 <= i < n :: run(i).None?)
            && (AllSettled(s.workers) ==> (AllFinished(s.workers) <==> forall i | 0 <= i < n :: run(i).Some?))
  {
    EveryRunKeepsInv(steps, n, limit, run);
    FinishedIsComplete(steps, n, limit, run);
    hide Run;
  }

  // ---- It ends ----

  function Cost(w: Worker): nat {
    match w
    case Ready => 1
    case Running(_) => 2
    case Finished => 0
    case Rejected => 0
  }

  /** What is left to do: indexes to take and return, and workers to stop. */
  function Work(workers: seq<Worker>): nat {
    if workers == [] then 0
    else Work(workers[..|workers| - 1]) + Cost(workers[|workers| - 1])
  }

  lemma {:induction false} WorkUpdate(workers: seq<Worker>, w: nat, x: Worker)
    requires w < |workers|
    ensures Work(workers[w := x]) - Cost(x) == Work(workers) - Cost(workers[w])
  {
    var n := |workers| - 1;
    if w < n {
      WorkUpdate(workers[..n], w, x);
      assert workers[w := x][..n] == workers[..n][w := x];
    } else {
      assert workers[w := x][..n] == workers[..n];
    }
  }

  function Left<T>(s: State<T>, n: nat): nat { 2 * (n - Taken(s, n)) + Work(s.workers) }

  /** Every step a worker can take leaves strictly less to do, and some worker can take one until each
      has finished or is lost. */
  lemma StepsRunOut<T>(s: State<T>, step: Step, n: nat, run: nat -> Option<T>)
    ensures Can(s, step) ==> Left(Do(s, step, n, run), n) < Left(s, n)
    ensures AllSettled(s.workers) <==> forall st :: !Can(s, st)
  {
    if Can(s, step) {
      var x := Do(s, step, n, run).workers[step.worker];
      WorkUpdate(s.workers, step.worker, x);
    }
    if forall st :: !Can(s, st) {
      forall w | 0 <= w < |s.workers| ensures s.workers[w].Finished? || s.workers[w].Rejected? {
        assert !Can(s, Take(w)) && !Can(s, Return(w));
      }
    }
  }
}
