/** Conservation of the timings of src/performance.c when flushes may overlap: every accepted sample is
    waiting or has left once, exactly when no copy leaves after another has left since it was made. */
module PerformanceConserved {
  import opened Ledger
  import opened Performance
  import PerformanceRuns
  import opened PerformanceOverlap

  // ----- Where every sample is -----

  ghost predicate HasLeft(log: seq<Departure>, p: nat) { exists d :: d in log && p in d.flight.batch }

  ghost predicate Inside(places: set<nat>, n: nat) { forall p <- places :: p < n }

  /** A place waits when its sample was accepted and has not left. */
  ghost predicate Placed(st: State) {
    && (forall f <- st.flights :: Inside(f.batch, |st.accepted|))
    && (forall p: nat :: p in st.waiting <==> p < |st.accepted| && !HasLeft(st.log, p))
  }

  lemma LeftPush(log: seq<Departure>, d: Departure, p: nat)
    ensures HasLeft(log + [d], p) <==> HasLeft(log, p) || p in d.flight.batch
  {
    assert d in log + [d];
    if HasLeft(log, p) {
      var x :| x in log && p in x.flight.batch;
      assert x in log + [d];
    }
  }

  lemma LaterPlaceHasNotLeft(st: State)
    requires Placed(st) && forall d <- st.log :: Inside(d.flight.batch, |st.accepted|)
    ensures !HasLeft(st.log, |st.accepted|)
  {
  }

  ghost predicate LogInside(st: State) { forall d <- st.log :: Inside(d.flight.batch, |st.accepted|) }

  lemma PlacedNext(st: State, step: Step)
    requires Placed(st) && LogInside(st)
    ensures Placed(Next(st, step)) && LogInside(Next(st, step))
  {
    hide HasLeft;
    var st' := Next(st, step);
    LaterPlaceHasNotLeft(st);
    match step
    case Record(name, duration, at) =>
    case Snap(at) => assert Inside(st.waiting, |st.accepted|);
    case Answer(k, status) =>
      if k < |st.flights| {
        var f := st.flights[k];
        assert forall x :: x in st'.flights ==> x in st.flights;
        assert f in st.flights;
        forall p: nat ensures HasLeft(st.log + [Departure(f, OutcomeFor(status))], p) <==>
            HasLeft(st.log, p) || p in f.batch {
          LeftPush(st.log, Departure(f, OutcomeFor(status)), p);
        }
      }
  }

  lemma {:induction false} RunPlaced(steps: seq<Step>)
    ensures Placed(Run(steps)) && LogInside(Run(steps))
    decreases |steps|
  {
    hide Next;
    if steps != [] {
      RunPlaced(steps[..|steps| - 1]);
      PlacedNext(Run(steps[..|steps| - 1]), steps[|steps| - 1]);
    }
  }

  // ----- Undisturbed departures -----

  /** No copy has left since the one now answered was made. */
  ghost predicate Undisturbed(st: State, step: Step)
    requires Departs(st, step)
  {
    st.flights[step.k].departures == |st.log|
  }

  ghost predicate AllUndisturbed(steps: seq<Step>)
    decreases |steps|
  {
    steps != [] ==>
      var st, step := Run(steps[..|steps| - 1]), steps[|steps| - 1];
      AllUndisturbed(steps[..|steps| - 1]) && (Departs(st, step) ==> Undisturbed(st, step))
  }

  /** All the samples of the copies made since a copy last left still wait; of every other copy some
      sample has left. */
  ghost predicate FlightTells(st: State, f: Flight) {
    && f.departures <= |st.log|
    && (f.departures == |st.log| <==> f.batch <= st.waiting)
    && f.batch != {}
  }

  /** Of two copies made since then, one holds all that the other does. */
  ghost predicate Nested(st: State, f: Flight, g: Flight) {
    f.departures == |st.log| == g.departures ==> f.batch <= g.batch || g.batch <= f.batch
  }

  ghost predicate FlightsTell(st: State) {
    && (forall f <- st.flights :: FlightTells(st, f))
    && (forall f, g :: f in st.flights && g in st.flights ==> Nested(st, f, g))
  }

  lemma RecordTells(st: State, s: string, duration: real, at: int)
    requires FlightsTell(st) && Placed(st)
    ensures FlightsTell(Next(st, Record(s, duration, at)))
  {
    var st' := Next(st, Record(s, duration, at));
    forall f | f in st'.flights ensures FlightTells(st', f) {
      assert f in st.flights && FlightTells(st, f) && Inside(f.batch, |st.accepted|);
      assert |st.accepted| !in f.batch;
    }
    forall f, g | f in st'.flights && g in st'.flights ensures Nested(st', f, g) { assert Nested(st, f, g); }
  }

  lemma SomethingWaits(st: State)
    requires CountsRight(st) && |st.core.tallies| != 0
    ensures st.waiting != {}
  {
    assert st.core.tallies.Keys != {};
    var name :| name in st.core.tallies.Keys;
    assert Right(st.core.tallies, st.accepted, st.waiting, name);
    assert |OfName(st.accepted, st.waiting, name)| > 0;
    var p :| p in OfName(st.accepted, st.waiting, name);
  }

  lemma SnapTells(st: State, at: int)
    requires FlightsTell(st) && CountsRight(st)
    ensures FlightsTell(Next(st, Snap(at)))
  {
    hide CountsRight;
    var st' := Next(st, Snap(at));
    if |st.core.tallies| != 0 {
      SomethingWaits(st);
      forall f | f in st'.flights ensures FlightTells(st', f) { assert f in st.flights ==> FlightTells(st, f); }
      forall f, g | f in st'.flights && g in st'.flights ensures Nested(st', f, g) {
        assert f in st.flights ==> FlightTells(st, f);
        assert g in st.flights ==> FlightTells(st, g);
        assert f in st.flights && g in st.flights ==> Nested(st, f, g);
      }
    }
  }

  lemma AnswerTells(st: State, step: Step)
    requires FlightsTell(st) && step.Answer? && (Departs(st, step) ==> Undisturbed(st, step))
    ensures FlightsTell(Next(st, step))
  {
    var st' := Next(st, step);
    if step.k < |st.flights| {
      var d := st.flights[step.k];
      assert forall x :: x in st'.flights ==> x in st.flights;
      forall f | f in st'.flights ensures FlightTells(st', f) {
        assert FlightTells(st, f) && FlightTells(st, d) && Nested(st, f, d);
        if Departs(st, step) { Overlapping(f.batch, d.batch, st.waiting); }
      }
      forall f, g | f in st'.flights && g in st'.flights ensures Nested(st', f, g) {
        assert Nested(st, f, g) && FlightTells(st, f);
      }
    }
  }

  /** What a nested or already disturbed copy keeps after another has left. */
  lemma Overlapping(f: set<nat>, d: set<nat>, waiting: set<nat>)
    requires f != {} && d != {} && d <= waiting && (f <= waiting ==> f <= d || d <= f)
    ensures !(f <= waiting - d)
  {
    if f <= waiting {
      var both := if f <= d then f else d;
      var x :| x in both;
      assert x in f && x !in waiting - d;
    }
  }

  // ----- Conservation -----

  /** No sample left twice. */
  ghost predicate Disjoint(log: seq<Departure>) {
    forall i, j :: 0 <= i < j < |log| ==> log[i].flight.batch !! log[j].flight.batch
  }

  /** The copies that left and what waits share out the accepted samples, each to one of them, and every
      bucket counts the samples of its name that wait. */
  ghost predicate Conserved(st: State) {
    && Disjoint(st.log) && CountsRight(st)
    && (forall p: nat :: p < |st.accepted| ==> (p in st.waiting <==> !HasLeft(st.log, p)))
    && (forall p: nat :: p in st.waiting || HasLeft(st.log, p) ==> p < |st.accepted|)
  }

  lemma DisjointFront(log: seq<Departure>, d: Departure)
    requires Disjoint(log + [d])
    ensures Disjoint(log)
  {
    forall i, j | 0 <= i < j < |log| ensures log[i].flight.batch !! log[j].flight.batch {
      assert (log + [d])[i] == log[i] && (log + [d])[j] == log[j];
    }
  }

  lemma DisjointPush(log: seq<Departure>, d: Departure)
    requires Disjoint(log) && forall p <- d.flight.batch :: !HasLeft(log, p)
    ensures Disjoint(log + [d])
  {
    var all := log + [d];
    forall i, j | 0 <= i < j < |all| ensures all[i].flight.batch !! all[j].flight.batch {
      if j == |log| { assert log[i] in log; }
    }
  }

  lemma NotDisjoint(log: seq<Departure>, d: Departure, p: nat)
    requires HasLeft(log, p) && p in d.flight.batch
    ensures !Disjoint(log + [d])
  {
    var x :| x in log && p in x.flight.batch;
    var i :| 0 <= i < |log| && log[i] == x;
    var all := log + [d];
    assert all[i] == x && all[|log|] == d;
    assert p in all[i].flight.batch && p in all[|log|].flight.batch;
  }

  /** What an undisturbed run keeps. */
  ghost predicate Good(st: State) {
    && CountsRight(st) && CopiesRight(st) && FlightsTell(st) && Disjoint(st.log) && Placed(st) && LogInside(st)
  }

  lemma UndisturbedKeepsCounts(st: State, f: Flight)
    requires f.batch <= st.waiting
    ensures KeepsCounts(st, f)
  {
    assert f.batch - st.waiting == {};
  }

  lemma GoodNext(st: State, step: Step)
    requires Good(st) && (Departs(st, step) ==> Undisturbed(st, step))
    ensures Good(Next(st, step))
  {
    hide CountsRight, CopiesRight, KeepsCounts, HasLeft, Disjoint;
    PlacedNext(st, step);
    if Departs(st, step) {
      var f := st.flights[step.k];
      assert FlightTells(st, f);
      UndisturbedKeepsCounts(st, f);
      DisjointPush(st.log, Departure(f, OutcomeFor(step.status)));
    }
    StepRightIff(st, step);
    match step
    case Record(name, duration, at) => RecordTells(st, name, duration, at);
    case Snap(at) => SnapTells(st, at);
    case Answer(k, status) => AnswerTells(st, step);
  }

  /** A disturbed departure sends some sample a second time. */
  lemma DisturbedRepeats(st: State, step: Step)
    requires Good(st) && Departs(st, step) && !Undisturbed(st, step)
    ensures !Disjoint(Next(st, step).log)
  {
    hide CountsRight, CopiesRight, HasLeft, Disjoint;
    var f := st.flights[step.k];
    assert FlightTells(st, f) && Inside(f.batch, |st.accepted|);
    var p :| p in f.batch && p !in st.waiting;
    NotDisjoint(st.log, Departure(f, OutcomeFor(step.status)), p);
  }

  lemma StaysRepeated(st: State, step: Step)
    requires !Disjoint(st.log)
    ensures !Disjoint(Next(st, step).log)
  {
    hide Disjoint;
    if Departs(st, step) && Disjoint(Next(st, step).log) {
      DisjointFront(st.log, Departure(st.flights[step.k], OutcomeFor(step.status)));
    }
  }

  lemma {:induction false} GoodIff(steps: seq<Step>)
    ensures AllUndisturbed(steps) ==> Good(Run(steps))
    ensures !AllUndisturbed(steps) ==> !Disjoint(Run(steps).log)
    decreases |steps|
  {
    hide Good, Next, Disjoint, Departs;
    if steps == [] {
      StartIsGood();
    } else {
      var front, step := steps[..|steps| - 1], steps[|steps| - 1];
      GoodIff(front);
      var st := Run(front);
      if !AllUndisturbed(front) {
        StaysRepeated(st, step);
      } else if Departs(st, step) && !Undisturbed(st, step) {
        DisturbedRepeats(st, step);
      } else {
        GoodNext(st, step);
      }
    }
  }

  lemma StartIsGood()
    ensures Good(START)
  {
    NothingCounted();
  }

  lemma GoodIsConserved(st: State)
    requires Good(st)
    ensures Conserved(st)
  {
    hide CountsRight, CopiesRight, Disjoint, FlightsTell;
    forall p: nat | HasLeft(st.log, p) ensures p < |st.accepted| {
      var d :| d in st.log && p in d.flight.batch;
      assert Inside(d.flight.batch, |st.accepted|);
    }
  }

  /** In any run, with any number of flushes in flight, the samples are conserved if and only if every
      copy that left did so with no other having left since it was made. */
  lemma ConservedIff(steps: seq<Step>)
    ensures Conserved(Run(steps)) <==> AllUndisturbed(steps)
  {
    hide Run, Good, Disjoint, AllUndisturbed, CountsRight, HasLeft;
    GoodIff(steps);
    if AllUndisturbed(steps) { GoodIsConserved(Run(steps)); }
  }

  // ----- What that means for each name -----

  ghost function Named(accepted: seq<Sample>, name: string): nat {
    if accepted == [] then 0
    else Named(accepted[..|accepted| - 1], name) + (if accepted[|accepted| - 1].name == name then 1 else 0)
  }

  ghost function Total(accepted: seq<Sample>, name: string): real {
    if accepted == [] then 0.0
    else
      var s := accepted[|accepted| - 1];
      Total(accepted[..|accepted| - 1], name) + (if s.name == name then s.duration else 0.0)
  }

  /** The count of that name in the copies that were delivered, or in those that were dropped. */
  ghost function Reported(log: seq<Departure>, name: string, delivered: bool): nat {
    if log == [] then 0
    else
      var d := log[|log| - 1];
      Reported(log[..|log| - 1], name, delivered)
      + (if (d.outcome == Delivered) == delivered then PerformanceRuns.CountIn(d.flight.sent.tallies, name) else 0)
  }

  ghost function ReportedSum(log: seq<Departure>, name: string, delivered: bool): real {
    if log == [] then 0.0
    else
      var d := log[|log| - 1];
      ReportedSum(log[..|log| - 1], name, delivered)
      + (if (d.outcome == Delivered) == delivered then PerformanceRuns.SumIn(d.flight.sent.tallies, name) else 0.0)
  }

  ghost predicate CountBalances(st: State, name: string) {
    Named(st.accepted, name) ==
    Reported(st.log, name, true) + Reported(st.log, name, false) + PerformanceRuns.CountIn(st.core.tallies, name)
  }

  ghost predicate SumBalances(st: State, name: string) {
    Total(st.accepted, name) ==
    ReportedSum(st.log, name, true) + ReportedSum(st.log, name, false) + PerformanceRuns.SumIn(st.core.tallies, name)
  }

  lemma PushReported(log: seq<Departure>, d: Departure, name: string)
    ensures var more := log + [d];
            && Reported(more, name, true) + Reported(more, name, false) ==
               Reported(log, name, true) + Reported(log, name, false)
               + PerformanceRuns.CountIn(d.flight.sent.tallies, name)
            && ReportedSum(more, name, true) + ReportedSum(more, name, false) ==
               ReportedSum(log, name, true) + ReportedSum(log, name, false)
               + PerformanceRuns.SumIn(d.flight.sent.tallies, name)
  {
    assert (log + [d])[..|log|] == log;
  }

  lemma PushAccepted(accepted: seq<Sample>, s: Sample, name: string)
    ensures Named(accepted + [s], name) == Named(accepted, name) + (if s.name == name then 1 else 0)
    ensures Total(accepted + [s], name) == Total(accepted, name) + (if s.name == name then s.duration else 0.0)
  {
    assert (accepted + [s])[..|accepted|] == accepted;
  }

  lemma CountIs(m: map<string, Tally>, accepted: seq<Sample>, places: set<nat>, name: string)
    requires Right(m, accepted, places, name)
    ensures PerformanceRuns.CountIn(m, name) == |OfName(accepted, places, name)|
  {
    hide OfName;
  }

  lemma SumIs(m: map<string, Tally>, accepted: seq<Sample>, places: set<nat>, name: string)
    requires Right(m, accepted, places, name) && Summed(m, accepted, places, name)
    ensures PerformanceRuns.SumIn(m, name) == SumIn(accepted, places, name)
  {
    hide SumIn, OfName;
    if name !in m { SumNone(accepted, places, name); }
  }

  /** What leaves a bucket is what its copy reported. */
  lemma CountLeaves(accepted: seq<Sample>, waiting: set<nat>, batch: set<nat>, name: string)
    requires batch <= waiting
    ensures |OfName(accepted, waiting, name)| == |OfName(accepted, batch, name)|
            + |OfName(accepted, waiting - batch, name)|
  {
    var w, b := OfName(accepted, waiting, name), OfName(accepted, batch, name);
    assert OfName(accepted, waiting - batch, name) == w - b && w * b == b;
    SizeSplit(w, b);
  }

  lemma SumLeaves(accepted: seq<Sample>, waiting: set<nat>, batch: set<nat>, name: string)
    requires batch <= waiting
    ensures SumIn(accepted, waiting, name) == SumIn(accepted, batch, name) + SumIn(accepted, waiting - batch, name)
  {
    SumSplit(accepted, waiting, batch, name);
    assert waiting * batch == batch;
  }

  lemma CountBalancesNext(st: State, step: Step, name: string)
    requires CountBalances(st, name) && Good(st) && Good(Next(st, step))
             && (Departs(st, step) ==> Undisturbed(st, step))
    ensures CountBalances(Next(st, step), name)
  {
    hide OfName, Named, Reported, Disjoint, Placed, LogInside, Subtract;
    var st' := Next(st, step);
    CountIs(st.core.tallies, st.accepted, st.waiting, name);
    CountIs(st'.core.tallies, st'.accepted, st'.waiting, name);
    if Departs(st, step) {
      var f := st.flights[step.k];
      assert f in st.flights && FlightTells(st, f);
      CountIs(f.sent.tallies, st.accepted, f.batch, name);
      CountLeaves(st.accepted, st.waiting, f.batch, name);
      PushReported(st.log, Departure(f, OutcomeFor(step.status)), name);
    } else if step.Record? && Takes(st.core, step.name) {
      PushAccepted(st.accepted, Sample(step.name, step.duration), name);
      OneMore(st.accepted, st.waiting, Sample(step.name, step.duration), name);
    }
  }

  lemma SumBalancesNext(st: State, step: Step, name: string)
    requires SumBalances(st, name) && Good(st) && Good(Next(st, step)) && (Departs(st, step) ==> Undisturbed(st, step))
    requires SumsRight(st) && SumsRight(Next(st, step))
    ensures SumBalances(Next(st, step), name)
  {
    hide OfName, Total, ReportedSum, SumIn, Disjoint, Placed, LogInside, Subtract;
    var st' := Next(st, step);
    SumIs(st.core.tallies, st.accepted, st.waiting, name);
    SumIs(st'.core.tallies, st'.accepted, st'.waiting, name);
    if Departs(st, step) {
      var f := st.flights[step.k];
      assert f in st.flights && FlightTells(st, f);
      SumIs(f.sent.tallies, st.accepted, f.batch, name);
      SumLeaves(st.accepted, st.waiting, f.batch, name);
      PushReported(st.log, Departure(f, OutcomeFor(step.status)), name);
    } else if step.Record? && Takes(st.core, step.name) {
      PushAccepted(st.accepted, Sample(step.name, step.duration), name);
      SumOneMore(st.accepted, st.waiting, Sample(step.name, step.duration), name);
    }
  }

  lemma {:induction false} UndisturbedIsRight(steps: seq<Step>)
    requires AllUndisturbed(steps)
    ensures AlwaysRight(steps)
    decreases |steps|
  {
    hide Good, Next, Departs, CountsRight;
    GoodIff(steps);
    assert CountsRight(Run(steps)) by { GoodCounts(Run(steps)); }
    if steps != [] { UndisturbedIsRight(steps[..|steps| - 1]); }
  }

  lemma GoodCounts(st: State)
    requires Good(st)
    ensures CountsRight(st)
  {
  }

  /** Then, for each name, the samples accepted are those reported as delivered, those dropped and those
      in the bucket, in number and, no duration being negative, in sum. */
  lemma {:induction false} Balances(steps: seq<Step>, name: string)
    requires AllUndisturbed(steps)
    ensures CountBalances(Run(steps), name)
    ensures NonNegative(Run(steps).accepted) ==> SumBalances(Run(steps), name)
    decreases |steps|
  {
    hide Good, Next, Departs, NonNegative, CountBalances, SumBalances, SumsRight;
    if steps == [] {
      NothingBalances(name);
    } else {
      var front, step := steps[..|steps| - 1], steps[|steps| - 1];
      Balances(front, name);
      GoodIff(front);
      GoodIff(steps);
      CountBalancesNext(Run(front), step, name);
      if NonNegative(Run(steps).accepted) {
        AcceptedGrows(Run(front), step);
        UndisturbedIsRight(front);
        UndisturbedIsRight(steps);
        SumsRightToo(front);
        SumsRightToo(steps);
        SumBalancesNext(Run(front), step, name);
      }
    }
  }

  lemma NothingBalances(name: string)
    ensures CountBalances(START, name) && SumBalances(START, name)
  {
  }

  // ----- An input that fails -----

  /** Two flushes of the same sample, both delivered: one sample was accepted, two are reported, and the
      buckets are right all along. */
  lemma DeliveredTwice(name: string, duration: real, now: int)
    ensures var st := Next(Next(Next(START, Record(name, duration, now)), Snap(now)), Snap(now));
            var once := Next(st, Answer(0, 200));
            var twice := Next(once, Answer(0, 200));
            && Departs(once, Answer(0, 200)) && KeepsCounts(once, once.flights[0])
            && Named(twice.accepted, name) == 1 && twice.core.tallies == map[]
            && Reported(twice.log, name, true) == 2 && !CountBalances(twice, name) && !Disjoint(twice.log)
  {
    var s1 := Next(START, Record(name, duration, now));
    var m := s1.core.tallies;
    assert s1.accepted == [Sample(name, duration)] && s1.waiting == {0};
    assert m.Keys == {name} && m[name].count == 1;
    var st := Next(Next(s1, Snap(now)), Snap(now));
    var f := Flight(Snapshot(m, s1.core.periodStart, now), {0}, 0);
    assert |m| == 1;
    assert st.flights == [f, f];
    var once := Next(st, Answer(0, 200));
    assert once.flights == [f] && once.waiting == {} && once.log == [Departure(f, Delivered)];
    assert once.core.tallies == map[];
    var twice := Next(once, Answer(0, 200));
    assert twice.log == [Departure(f, Delivered), Departure(f, Delivered)];
    assert twice.core.tallies == map[];
    assert once.waiting - f.batch == {};
    ReportedTwice(f, name);
    PushAccepted([], Sample(name, duration), name);
    assert [] + [Sample(name, duration)] == [Sample(name, duration)];
    assert 0 in twice.log[0].flight.batch && 0 in twice.log[1].flight.batch;
  }

  lemma ReportedTwice(f: Flight, name: string)
    ensures var d := Departure(f, Delivered);
            && Reported([d, d], name, true) == 2 * PerformanceRuns.CountIn(f.sent.tallies, name)
            && Reported([d, d], name, false) == 0
  {
    var d := Departure(f, Delivered);
    assert [d, d][..1] == [d] && [d][..0] == [];
    assert Reported([d], name, true) == PerformanceRuns.CountIn(f.sent.tallies, name)
           && Reported([d], name, false) == 0;
  }
}
