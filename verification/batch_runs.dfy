/** Whole runs of the loop of BatchWrite: when they come to an end. */
module BatchRuns {
  import opened BatchWrites

  /** A run: the state of the loop after every number of rounds. */
  ghost predicate IsRun(server: (nat, Batch) -> Response, input: Batch, run: nat -> Loop) {
    run(0) == Loop(input, map[], 0, [], false) && forall k: nat :: Steps(server, run(k), run(k + 1))
  }

  lemma {:induction false} RunKeeps(server: (nat, Batch) -> Response, input: Batch, run: nat -> Loop, k: nat)
    requires (forall n, reqs :: Legit(reqs, server(n, reqs))) && IsRun(server, input, run)
    ensures LoopKeeps(server, input, run(k)) && |run(k).log| <= k && (Goes(run(k)) ==> |run(k).log| == k)
  {
    if k == 0 {
      StartKeeps(server, input);
    } else {
      RunKeeps(server, input, run, k - 1);
      assert Steps(server, run(k - 1), run(k - 1 + 1));
      StepKeeps(server, input, run(k - 1), run(k));
    }
  }

  /** A run that has ended stays as it is. */
  lemma {:induction false} StaysEnded(server: (nat, Batch) -> Response, input: Batch, run: nat -> Loop, j: nat, k: nat)
    requires IsRun(server, input, run) && !Goes(run(j)) && j <= k
    ensures run(k) == run(j)
  {
    if j < k {
      StaysEnded(server, input, run, j, k - 1);
      assert Steps(server, run(k - 1), run(k - 1 + 1));
    }
  }

  /** At every moment all rounds but a bounded number have stalled; without stalling the run ends,
      and if all that is sent comes back it does not. */
  lemma RoundsInRun(server: (nat, Batch) -> Response, input: Batch, run: nat -> Loop, k: nat)
    requires (forall n, reqs :: Legit(reqs, server(n, reqs))) && IsRun(server, input, run)
    ensures |run(k).log| <= RoundLimit(Len(input)) + Stalled(run(k).log) + (if run(k).fatal then 1 else 0)
    ensures MakesHeadway(server) && k > RoundLimit(Len(input)) ==> !Goes(run(k))
    ensures ReturnsAll(server) && Len(input) > 0 ==> Goes(run(k)) && Stalled(run(k).log) == k
  {
    RunKeeps(server, input, run, k);
    var s := run(k);
    if !s.fatal {
      PacedRounds(input, s.outstanding, s.unprocessed, s.log, server);
    }
  }

  ghost predicate StallsAtMost(run: nat -> Loop, bound: nat) {
    forall k: nat :: Stalled(run(k).log) <= bound
  }

  /** A run of the loop never ends if and only if its stalled rounds have no bound. */
  lemma EndlessIffStalling(server: (nat, Batch) -> Response, input: Batch, run: nat -> Loop)
    requires (forall n, reqs :: Legit(reqs, server(n, reqs))) && IsRun(server, input, run)
    ensures (forall k: nat :: Goes(run(k))) <==> forall bound: nat :: !StallsAtMost(run, bound)
  {
    if forall k: nat :: Goes(run(k)) {
      forall bound: nat ensures !StallsAtMost(run, bound) {
        var limit := RoundLimit(Len(input));
        var k: nat := bound + (if limit > 0 then limit else 0) + 1;
        RunKeeps(server, input, run, k);
        RoundsInRun(server, input, run, k);
        assert Goes(run(k)) && Stalled(run(k).log) > bound;
      }
    } else {
      var j: nat :| !Goes(run(j));
      forall k: nat ensures Stalled(run(k).log) <= j {
        EndedStalls(server, input, run, j, k);
      }
      assert StallsAtMost(run, j);
    }
  }

  lemma EndedStalls(server: (nat, Batch) -> Response, input: Batch, run: nat -> Loop, j: nat, k: nat)
    requires (forall n, reqs :: Legit(reqs, server(n, reqs))) && IsRun(server, input, run) && !Goes(run(j))
    ensures Stalled(run(k).log) <= j
  {
    var n := if j <= k then j else k;
    RunKeeps(server, input, run, n);
    CountIsPart(run(n).log, Stall);
    if j <= k {
      StaysEnded(server, input, run, j, k);
    }
  }
}
