/** Runs of a system whose steps emit records into a shared log and take decisions against the log so far. */
module Runs {
  import opened Errors

  datatype World<R, A> = World(log: set<R>, accepted: set<A>)

  function Next<S, R, A>(
    emit: S -> Option<R>, decide: (set<R>, nat, S) -> Option<A>, w: World<R, A>, at: nat, step: S
  ): (w': World<R, A>)
  {
    var decision := decide(w.log, at, step);
    var record := emit(step);
    World(if record.Some? then w.log + {record.value} else w.log,
          if decision.Some? then w.accepted + {decision.value} else w.accepted)
  }

  function Run<S, R, A>(emit: S -> Option<R>, decide: (set<R>, nat, S) -> Option<A>, steps: seq<S>): (w: World<R, A>) {
    if steps == [] then World({}, {})
    else
      var n := |steps| - 1;
      Next(emit, decide, Run(emit, decide, steps[..n]), n, steps[n])
  }

  /** The log is exactly what the steps emitted. */
  lemma {:induction false} LogOrigin<S, R, A>(
    emit: S -> Option<R>, decide: (set<R>, nat, S) -> Option<A>, steps: seq<S>, record: R
  )
    ensures record in Run(emit, decide, steps).log <==> exists j | 0 <= j < |steps| :: emit(steps[j]) == Some(record)
  {
    if steps != [] {
      var n := |steps| - 1;
      var earlier := steps[..n];
      LogOrigin(emit, decide, earlier, record);
      if j :| 0 <= j < n && emit(earlier[j]) == Some(record) {
        assert emit(steps[j]) == Some(record);
      }
      if j :| 0 <= j < n && emit(steps[j]) == Some(record) {
        assert emit(earlier[j]) == Some(record);
      }
    }
  }

  /** Every decision on record was taken at a step, against the log of the steps before it. */
  lemma {:induction false} DecisionOrigin<S, R, A>(
    emit: S -> Option<R>, decide: (set<R>, nat, S) -> Option<A>, steps: seq<S>, a: A
  ) returns (at: nat)
    requires a in Run(emit, decide, steps).accepted
    ensures at < |steps| && decide(Run(emit, decide, steps[..at]).log, at, steps[at]) == Some(a)
  {
    var n := |steps| - 1;
    var earlier := steps[..n];
    if a in Run(emit, decide, earlier).accepted {
      at := DecisionOrigin(emit, decide, earlier, a);
      assert earlier[..at] == steps[..at] && earlier[at] == steps[at];
    } else {
      at := n;
    }
  }

  /** Conversely, every decision taken stays on record. */
  lemma {:induction false} DecisionIsKept<S, R, A>(
    emit: S -> Option<R>, decide: (set<R>, nat, S) -> Option<A>, steps: seq<S>, at: nat, a: A
  )
    requires at < |steps| && decide(Run(emit, decide, steps[..at]).log, at, steps[at]) == Some(a)
    ensures a in Run(emit, decide, steps).accepted
  {
    var n := |steps| - 1;
    if at < n {
      assert steps[..n][..at] == steps[..at];
      DecisionIsKept(emit, decide, steps[..n], at, a);
    }
  }
}
