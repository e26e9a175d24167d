/** The metric buffer of src/metrics.c when flushes may overlap: the worker, the exit hook and an
    explicit call can each have one in flight. Nothing in the source rules that out; these are the
    conditions under which it does no harm. */
module MetricsOverlap {
  import opened Ledger
  import Metrics

  // ----- Runs with any number of flushes in flight -----

  /** A batch in flight: it begins at this place among all accepted entries, has this many, and was
      taken after so many batches had left. */
  datatype Flight = Flight(own: nat, n: nat, departures: nat)

  /** A batch that left: where it began, where the entries taken out began, and how many. */
  datatype Removal = Removal(own: nat, taken: nat, n: nat)

  datatype Step = Record(e: Metrics.Entry) | Snapshot | Answer(k: nat, status: int)

  /** The first `gone` of the accepted entries have been taken out. Once an answer has overrun the
      buffer nothing more is said. */
  datatype State =
    State(core: Metrics.Core, accepted: seq<Metrics.Entry>, gone: nat,
          flights: seq<Flight>, log: seq<Removal>, overrun: bool)

  const START := State(Metrics.Core([], 0), [], 0, [], [], false)

  function Without(fs: seq<Flight>, k: nat): seq<Flight>
    requires k < |fs|
  {
    fs[..k] + fs[k + 1..]
  }

  function Answered(st: State, k: nat, o: Outcome): State
    requires k < |st.flights|
  {
    var f, flights := st.flights[k], Without(st.flights, k);
    if Metrics.Overruns(st.core, f.n, o) then st.(overrun := true)
    else if LetGo(st.core.failures, o) then
      State(Metrics.CompleteCore(st.core, f.n, o), st.accepted, st.gone + f.n,
            flights, st.log + [Removal(f.own, st.gone, f.n)], false)
    else st.(core := Metrics.CompleteCore(st.core, f.n, o), flights := flights)
  }

  function Next(st: State, step: Step): State {
    if st.overrun then st
    else
      match step
      case Record(e) =>
        st.(core := Metrics.RecordCore(st.core, e),
            accepted := if |st.core.entries| < Metrics.MAX_ENTRIES then st.accepted + [e] else st.accepted)
      case Snapshot =>
        if st.core.entries == [] then st
        else st.(flights := st.flights + [Flight(st.gone, |st.core.entries|, |st.log|)])
      case Answer(k, status) => if k < |st.flights| then Answered(st, k, OutcomeFor(status)) else st
  }

  ghost predicate FlightFits(st: State, f: Flight) {
    && f.n > 0 && f.own + f.n <= |st.accepted| && f.own <= st.gone && f.departures <= |st.log|
    && (f.departures == |st.log| <==> f.own == st.gone)
  }

  ghost predicate Inv(st: State) {
    && st.gone <= |st.accepted| && st.core.entries == st.accepted[st.gone..] && |st.core.entries| <= Metrics.MAX_ENTRIES
    && forall f <- st.flights :: FlightFits(st, f)
  }

  lemma NextKeeps(st: State, step: Step)
    requires Inv(st)
    ensures Inv(Next(st, step))
  {
    var st' := Next(st, step);
    if !st.overrun && step.Answer? && step.k < |st.flights| {
      var f := st.flights[step.k];
      assert FlightFits(st, f);
      forall x | x in st'.flights ensures FlightFits(st', x) { assert x in st.flights; }
    } else {
      forall x | x in st'.flights ensures FlightFits(st', x) { assert x in st.flights ==> FlightFits(st, x); }
    }
  }

  ghost function Run(steps: seq<Step>): (st: State)
    ensures Inv(st)
    decreases |steps|
  {
    if steps == [] then START
    else
      var before := Run(steps[..|steps| - 1]);
      NextKeeps(before, steps[|steps| - 1]);
      Next(before, steps[|steps| - 1])
  }

  // ----- One answer -----

  /** The k-th batch is answered, and is to leave. */
  ghost predicate Departs(st: State, step: Step) {
    !st.overrun && step.Answer? && step.k < |st.flights| && LetGo(st.core.failures, OutcomeFor(step.status))
  }

  /** No batch has left since the snapshot of the one now answered. */
  ghost predicate Undisturbed(st: State, step: Step)
    requires Departs(st, step)
  {
    st.flights[step.k].departures == |st.log|
  }

  /** In any run: an answer overruns the buffer if and only if, since its snapshot, other batches have
      taken out more entries than were recorded. */
  lemma OverrunsIff(steps: seq<Step>, step: Step)
    requires Departs(Run(steps), step)
    ensures var st := Run(steps); var f := st.flights[step.k];
            Next(st, step).overrun <==> st.gone - f.own > |st.accepted| - (f.own + f.n)
  {
    hide Run;
    assert FlightFits(Run(steps), Run(steps).flights[step.k]);
  }

  /** Places among the accepted entries. */
  ghost function Places(start: nat, n: nat): iset<nat> { iset i: nat | IsPlace(i, start, n) }

  ghost predicate IsPlace(i: nat, start: nat, n: nat) { start <= i < start + n }

  /** In any run: an answer takes out exactly the entries of its own batch if and only if no other
      batch has left since its snapshot. */
  lemma TakesItsOwnIff(steps: seq<Step>, step: Step)
    requires Departs(Run(steps), step)
    ensures var st := Run(steps); var st', f := Next(st, step), st.flights[step.k];
            && st.gone <= st'.gone
            && (!st'.overrun && Places(st.gone, st'.gone - st.gone) == Places(f.own, f.n) <==> Undisturbed(st, step))
  {
    hide Run;
    var st := Run(steps);
    var st', f := Next(st, step), st.flights[step.k];
    assert FlightFits(st, f);
    assert f.own in Places(f.own, f.n);
    assert f.own < st.gone ==> f.own !in Places(st.gone, st'.gone - st.gone);
  }

  // ----- Whole runs -----

  /** Every batch that left did so undisturbed. */
  ghost predicate AllUndisturbed(steps: seq<Step>)
    decreases |steps|
  {
    steps == [] ||
    (var front, step := steps[..|steps| - 1], steps[|steps| - 1];
     AllUndisturbed(front) && (Departs(Run(front), step) ==> Undisturbed(Run(front), step)))
  }

  ghost predicate TookTheirOwn(log: seq<Removal>) { forall r <- log :: r.taken == r.own }

  /** Conservation with overlapping flushes: the buffer was never overrun and every batch that left
      took out its own entries and no others, if and only if each left undisturbed. */
  lemma {:induction false} ConservedIff(steps: seq<Step>)
    ensures !Run(steps).overrun && TookTheirOwn(Run(steps).log) <==> AllUndisturbed(steps)
    decreases |steps|
  {
    if steps != [] {
      var front, step := steps[..|steps| - 1], steps[|steps| - 1];
      ConservedIff(front);
      var st := Run(front);
      hide Run;
      ConservedStep(st, step);
    }
  }

  lemma ConservedStep(st: State, step: Step)
    requires Inv(st)
    ensures var st' := Next(st, step);
            !st'.overrun && TookTheirOwn(st'.log) <==>
            !st.overrun && TookTheirOwn(st.log) && (Departs(st, step) ==> Undisturbed(st, step))
  {
    var st' := Next(st, step);
    if Departs(st, step) {
      var f := st.flights[step.k];
      assert FlightFits(st, f);
      var r := Removal(f.own, st.gone, f.n);
      if !st'.overrun {
        assert st'.log == st.log + [r] && st'.log[|st.log|] == r;
        assert forall x <- st.log :: x in st'.log;
      }
    }
  }

  /** Each removal starts where the one before it ended, the first at the first entry accepted. */
  ghost predicate InOrder(log: seq<Removal>, gone: nat) {
    if log == [] then gone == 0
    else
      var front, last := log[..|log| - 1], log[|log| - 1];
      gone == last.taken + last.n && InOrder(front, last.taken)
  }

  /** Even in a disturbed run entries are taken out from the front and in order only. */
  lemma {:induction false} TakenInOrder(steps: seq<Step>)
    ensures InOrder(Run(steps).log, Run(steps).gone)
    decreases |steps|
  {
    if steps != [] {
      var front, step := steps[..|steps| - 1], steps[|steps| - 1];
      TakenInOrder(front);
      var st := Run(front);
      var st' := Next(st, step);
      if Departs(st, step) && !st'.overrun { assert st'.log[..|st.log|] == st.log; }
    }
  }

  // ----- Inputs that fail -----

  /** Two flushes of the same entry: with one recorded in between, that one is taken out although no
      batch ever held it; with none, the buffer is overrun. */
  lemma OverlapLosesAnEntry(a: Metrics.Entry, b: Metrics.Entry)
    ensures var st := Next(Next(Next(START, Record(a)), Snapshot), Snapshot);
            var first := Next(st, Answer(0, 200));
            var lost := Next(Next(first, Record(b)), Answer(0, 200));
            && Next(first, Answer(0, 200)).overrun
            && !lost.overrun && lost.accepted == [a, b] && lost.core.entries == []
            && lost.log == [Removal(0, 0, 1), Removal(0, 1, 1)]
  {
    var s1 := Next(START, Record(a));
    assert s1.core.entries == [a];
    var st := Next(Next(s1, Snapshot), Snapshot);
    assert st.flights == [Flight(0, 1, 0), Flight(0, 1, 0)];
    var first := Next(st, Answer(0, 200));
    assert first.flights == [Flight(0, 1, 0)] && first.core == Metrics.Core([], 0) && first.log == [Removal(0, 0, 1)];
    var second := Next(first, Record(b));
    assert second.core.entries == [b] && second.accepted == [a, b];
  }
}
