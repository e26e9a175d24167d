/** The buckets of src/performance.c when flushes may overlap: exactly when the counts stay right. */
module PerformanceOverlap {
  import opened Ledger
  import opened Performance

  datatype Sample = Sample(name: string, duration: real)

  // ----- What a bucket should count -----

  /** Those of the places that hold a sample of that name; a sample's place is its number among all
      that were accepted. */
  ghost function OfName(accepted: seq<Sample>, places: set<nat>, name: string): set<nat> {
    set p | p in places && p < |accepted| && accepted[p].name == name
  }

  ghost predicate Right(m: map<string, Tally>, accepted: seq<Sample>, places: set<nat>, name: string) {
    var count := |OfName(accepted, places, name)|;
    (name in m <==> count > 0) && (name in m ==> m[name].count == count)
  }

  lemma {:induction false} SizeSplit(a: set<nat>, b: set<nat>)
    ensures |a| == |a * b| + |a - b|
  {
    assert a == a * b + (a - b);
  }

  /** Taking out a copy leaves the right count of a name if and only if none of the copy's samples of
      that name was taken out before, or none that is not in the copy waits. */
  lemma SubtractRightIff(m: map<string, Tally>, sent: map<string, Tally>, accepted: seq<Sample>, waiting: set<nat>,
                         batch: set<nat>, name: string)
    requires Right(m, accepted, waiting, name) && Right(sent, accepted, batch, name)
    ensures Right(Subtract(m, sent), accepted, waiting - batch, name) <==>
            OfName(accepted, batch - waiting, name) == {} || OfName(accepted, waiting - batch, name) == {}
  {
    var w, b := OfName(accepted, waiting, name), OfName(accepted, batch, name);
    assert OfName(accepted, waiting - batch, name) == w - b;
    assert OfName(accepted, batch - waiting, name) == b - w;
    SizeSplit(w, b);
    SizeSplit(b, w);
    assert w * b == b * w;
    hide OfName, Subtract;
    SubtractAt(m, sent, name);
    assert |w - b| == 0 <==> w - b == {};
    assert |b - w| == 0 <==> b - w == {};
  }

  lemma SubtractAt(m: map<string, Tally>, sent: map<string, Tally>, name: string)
    ensures var left := Subtract(m, sent);
            && (name in left <==> name in m && (name in sent ==> m[name].count > sent[name].count))
            && (name in left ==> left[name].count == m[name].count - (if name in sent then sent[name].count else 0))
  {
  }

  // ----- Runs with any number of flushes in flight -----

  /** A copy in flight, the places of the samples it stands for, and how many copies had left. */
  datatype Flight = Flight(sent: Snapshot, batch: set<nat>, departures: nat)

  /** A copy that left, and how it was answered. */
  datatype Departure = Departure(flight: Flight, outcome: Outcome)

  datatype Step = Record(name: string, duration: real, at: int) | Snap(at: int) | Answer(k: nat, status: int)

  datatype State =
    State(core: Core, accepted: seq<Sample>, waiting: set<nat>, flights: seq<Flight>, log: seq<Departure>)

  const START := State(Core(map[], 0, 0), [], {}, [], [])

  ghost function Next(st: State, step: Step): State {
    match step
    case Record(name, duration, at) =>
      if !Takes(st.core, name) then st
      else
        st.(core := RecordCore(st.core, name, duration, at), accepted := st.accepted + [Sample(name, duration)],
            waiting := st.waiting + {|st.accepted|})
    case Snap(at) =>
      if |st.core.tallies| == 0 then st
      else
        var sent := Snapshot(st.core.tallies, st.core.periodStart, at);
        st.(flights := st.flights + [Flight(sent, st.waiting, |st.log|)])
    case Answer(k, status) =>
      if k >= |st.flights| then st
      else
        var f, o := st.flights[k], OutcomeFor(status);
        st.(core := CompleteCore(st.core, f.sent, o), flights := st.flights[..k] + st.flights[k + 1..],
            waiting := if LetGo(st.core.failures, o) then st.waiting - f.batch else st.waiting,
            log := if LetGo(st.core.failures, o) then st.log + [Departure(f, o)] else st.log)
  }

  ghost function Run(steps: seq<Step>): State
    decreases |steps|
  {
    if steps == [] then START else Next(Run(steps[..|steps| - 1]), steps[|steps| - 1])
  }

  ghost predicate AllNames(m: map<string, Tally>, accepted: seq<Sample>, places: set<nat>) {
    && (forall p <- places :: p < |accepted|)
    && (forall name :: Right(m, accepted, places, name))
  }

  /** Every bucket counts the samples of its name that wait. */
  ghost predicate CountsRight(st: State) { AllNames(st.core.tallies, st.accepted, st.waiting) }

  ghost predicate CopiesRight(st: State) {
    forall f <- st.flights :: AllNames(f.sent.tallies, st.accepted, f.batch)
  }

  ghost predicate Departs(st: State, step: Step) {
    step.Answer? && step.k < |st.flights| && LetGo(st.core.failures, OutcomeFor(step.status))
  }

  /** For each name: none of the copy's samples was taken out by another answer since the copy was
      made, or none that came in since waits. The buckets then come out right, even where the copy has
      been sent before. */
  ghost predicate KeepsCounts(st: State, f: Flight) {
    forall name :: OfName(st.accepted, f.batch - st.waiting, name) == {}
      || OfName(st.accepted, st.waiting - f.batch, name) == {}
  }

  // ----- Steps -----

  lemma OneMore(accepted: seq<Sample>, places: set<nat>, s: Sample, name: string)
    requires forall p <- places :: p < |accepted|
    ensures OfName(accepted + [s], places, name) == OfName(accepted, places, name)
    ensures |OfName(accepted + [s], places + {|accepted|}, name)| ==
            |OfName(accepted, places, name)| + (if s.name == name then 1 else 0)
  {
    hide OfName;
    Unmoved(accepted, places, s, name);
    Joined(accepted, places, s, name);
    assert |OfName(accepted, places, name) + {|accepted|}| == |OfName(accepted, places, name)| + 1;
  }

  lemma Unmoved(accepted: seq<Sample>, places: set<nat>, s: Sample, name: string)
    requires forall p <- places :: p < |accepted|
    ensures OfName(accepted + [s], places, name) == OfName(accepted, places, name)
            && |accepted| !in OfName(accepted, places, name)
  {
  }

  lemma Joined(accepted: seq<Sample>, places: set<nat>, s: Sample, name: string)
    requires forall p <- places :: p < |accepted|
    ensures OfName(accepted + [s], places + {|accepted|}, name) ==
            if s.name == name then OfName(accepted, places, name) + {|accepted|} else OfName(accepted, places, name)
  {
    var was, now := OfName(accepted, places, name), OfName(accepted + [s], places + {|accepted|}, name);
    forall p: nat ensures p in now <==> p in was || (s.name == name && p == |accepted|) { }
  }

  lemma RecordRight(st: State, s: string, duration: real, at: int)
    requires CountsRight(st) && CopiesRight(st)
    ensures var st' := Next(st, Record(s, duration, at)); CountsRight(st') && CopiesRight(st')
  {
    hide AllNames;
    if Takes(st.core, s) {
      var sample := Sample(s, duration);
      RecordAll(st.core, st.accepted, st.waiting, sample, at);
      forall f | f in st.flights ensures AllNames(f.sent.tallies, st.accepted + [sample], f.batch) {
        RecordElsewhere(f.sent.tallies, st.accepted, f.batch, sample);
      }
    }
  }

  lemma RecordAll(c: Core, accepted: seq<Sample>, waiting: set<nat>, s: Sample, at: int)
    requires AllNames(c.tallies, accepted, waiting) && Takes(c, s.name)
    ensures AllNames(RecordCore(c, s.name, s.duration, at).tallies, accepted + [s], waiting + {|accepted|})
  {
    hide OfName, Right;
    var m := RecordCore(c, s.name, s.duration, at).tallies;
    forall name ensures Right(m, accepted + [s], waiting + {|accepted|}, name) {
      RecordOne(c, accepted, waiting, s, at, name);
    }
  }

  lemma RecordOne(c: Core, accepted: seq<Sample>, waiting: set<nat>, s: Sample, at: int, name: string)
    requires Right(c.tallies, accepted, waiting, name) && Takes(c, s.name) && forall p <- waiting :: p < |accepted|
    ensures Right(RecordCore(c, s.name, s.duration, at).tallies, accepted + [s], waiting + {|accepted|}, name)
  {
    hide OfName;
    OneMore(accepted, waiting, s, name);
  }

  lemma RecordElsewhere(m: map<string, Tally>, accepted: seq<Sample>, batch: set<nat>, s: Sample)
    requires AllNames(m, accepted, batch)
    ensures AllNames(m, accepted + [s], batch)
  {
    hide OfName;
    forall name ensures Right(m, accepted + [s], batch, name) {
      OneMore(accepted, batch, s, name);
      assert Right(m, accepted, batch, name);
    }
  }

  lemma SnapRight(st: State, at: int)
    requires CountsRight(st) && CopiesRight(st)
    ensures var st' := Next(st, Snap(at)); CountsRight(st') && CopiesRight(st')
  {
    hide AllNames;
  }

  lemma AnswerRightIff(st: State, step: Step)
    requires CountsRight(st) && CopiesRight(st) && step.Answer?
    ensures CopiesRight(Next(st, step))
    ensures CountsRight(Next(st, step)) <==> Departs(st, step) ==> KeepsCounts(st, st.flights[step.k])
  {
    hide Right, OfName, Subtract;
    var st' := Next(st, step);
    if step.k < |st.flights| {
      var f := st.flights[step.k];
      assert forall x :: x in st'.flights ==> x in st.flights;
      if Departs(st, step) {
        forall name
          ensures Right(st'.core.tallies, st.accepted, st'.waiting, name) <==>
                  OfName(st.accepted, f.batch - st.waiting, name) == {}
                    || OfName(st.accepted, st.waiting - f.batch, name) == {}
        {
          SubtractRightIff(st.core.tallies, f.sent.tallies, st.accepted, st.waiting, f.batch, name);
        }
      }
    }
  }

  // ----- Whole runs -----

  /** The counts are right now and were at every step before. */
  ghost predicate AlwaysRight(steps: seq<Step>)
    decreases |steps|
  {
    CountsRight(Run(steps)) && (steps != [] ==> AlwaysRight(steps[..|steps| - 1]))
  }

  ghost predicate AllKeepCounts(steps: seq<Step>)
    decreases |steps|
  {
    steps != [] ==>
      var st, step := Run(steps[..|steps| - 1]), steps[|steps| - 1];
      AllKeepCounts(steps[..|steps| - 1]) && (Departs(st, step) ==> KeepsCounts(st, st.flights[step.k]))
  }

  /** In any run, overlapping flushes and all: every bucket has counted its waiting samples at every
      step if and only if each answer that let a batch go kept them so. */
  lemma {:induction false} AlwaysRightIff(steps: seq<Step>)
    ensures AlwaysRight(steps) <==> AllKeepCounts(steps)
    ensures AlwaysRight(steps) ==> CopiesRight(Run(steps))
    decreases |steps|
  {
    hide CountsRight, CopiesRight, Next, KeepsCounts, Departs;
    if steps == [] {
      NothingCounted();
    } else {
      var front, step := steps[..|steps| - 1], steps[|steps| - 1];
      AlwaysRightIff(front);
      if AlwaysRight(front) { StepRightIff(Run(front), step); }
    }
  }

  lemma StepRightIff(st: State, step: Step)
    requires CountsRight(st) && CopiesRight(st)
    ensures CopiesRight(Next(st, step))
    ensures CountsRight(Next(st, step)) <==> Departs(st, step) ==> KeepsCounts(st, st.flights[step.k])
  {
    hide CountsRight, CopiesRight, Next, KeepsCounts;
    match step
    case Record(name, duration, at) => RecordRight(st, name, duration, at);
    case Snap(at) => SnapRight(st, at);
    case Answer(k, status) => AnswerRightIff(st, step);
  }

  lemma NothingCounted()
    ensures CountsRight(START) && CopiesRight(START)
  {
  }

  // ----- Then the sums are right as well -----

  ghost function SumIn(accepted: seq<Sample>, places: set<nat>, name: string): real
    decreases |accepted|
  {
    if accepted == [] then 0.0
    else
      var n := |accepted| - 1;
      var s := accepted[n];
      SumIn(accepted[..n], places, name) + (if n in places && s.name == name then s.duration else 0.0)
  }

  ghost predicate Summed(m: map<string, Tally>, accepted: seq<Sample>, places: set<nat>, name: string) {
    name in m ==> m[name].sum == SumIn(accepted, places, name)
  }

  ghost predicate NonNegative(accepted: seq<Sample>) { forall i :: 0 <= i < |accepted| ==> accepted[i].duration >= 0.0 }

  lemma {:induction false} SumSplit(accepted: seq<Sample>, a: set<nat>, b: set<nat>, name: string)
    ensures SumIn(accepted, a, name) == SumIn(accepted, a * b, name) + SumIn(accepted, a - b, name)
    decreases |accepted|
  {
    if accepted != [] { SumSplit(accepted[..|accepted| - 1], a, b, name); }
  }

  lemma {:induction false} SumNone(accepted: seq<Sample>, places: set<nat>, name: string)
    requires OfName(accepted, places, name) == {}
    ensures SumIn(accepted, places, name) == 0.0
    decreases |accepted|
  {
    if accepted != [] {
      var n := |accepted| - 1;
      assert OfName(accepted[..n], places, name) <= OfName(accepted, places, name);
      assert n in places && accepted[n].name == name ==> n in OfName(accepted, places, name);
      SumNone(accepted[..n], places, name);
    }
  }

  lemma {:induction false} SumNotNegative(accepted: seq<Sample>, places: set<nat>, name: string)
    requires NonNegative(accepted)
    ensures SumIn(accepted, places, name) >= 0.0
    decreases |accepted|
  {
    if accepted != [] { SumNotNegative(accepted[..|accepted| - 1], places, name); }
  }

  lemma {:induction false} SumElsewhere(accepted: seq<Sample>, a: set<nat>, b: set<nat>, name: string)
    requires forall p :: 0 <= p < |accepted| ==> (p in a <==> p in b)
    ensures SumIn(accepted, a, name) == SumIn(accepted, b, name)
    decreases |accepted|
  {
    if accepted != [] { SumElsewhere(accepted[..|accepted| - 1], a, b, name); }
  }

  /** One more sample; its place is no place of those before. */
  lemma SumOneMore(accepted: seq<Sample>, places: set<nat>, s: Sample, name: string)
    requires forall p <- places :: p < |accepted|
    ensures SumIn(accepted + [s], places, name) == SumIn(accepted, places, name)
    ensures SumIn(accepted + [s], places + {|accepted|}, name) ==
            SumIn(accepted, places, name) + (if s.name == name then s.duration else 0.0)
  {
    assert (accepted + [s])[..|accepted|] == accepted;
    SumElsewhere(accepted, places + {|accepted|}, places, name);
  }

  lemma SubtractSummed(m: map<string, Tally>, sent: map<string, Tally>, accepted: seq<Sample>, waiting: set<nat>,
                       batch: set<nat>, name: string)
    requires Right(m, accepted, waiting, name) && Right(sent, accepted, batch, name) && NonNegative(accepted)
    requires Summed(m, accepted, waiting, name) && Summed(sent, accepted, batch, name)
    requires Right(Subtract(m, sent), accepted, waiting - batch, name)
    ensures Summed(Subtract(m, sent), accepted, waiting - batch, name)
  {
    hide OfName, SumIn, NonNegative;
    SubtractRightIff(m, sent, accepted, waiting, batch, name);
    if name in Subtract(m, sent) {
      SumSplit(accepted, waiting, batch, name);
      SumSplit(accepted, batch, waiting, name);
      assert waiting * batch == batch * waiting;
      SumNone(accepted, batch - waiting, name);
      SumNotNegative(accepted, waiting - batch, name);
      if name !in sent {
        NoneInBoth(accepted, waiting, batch, name);
        SumNone(accepted, waiting * batch, name);
      }
    }
  }

  lemma NoneInBoth(accepted: seq<Sample>, a: set<nat>, b: set<nat>, name: string)
    requires |OfName(accepted, b, name)| == 0
    ensures OfName(accepted, a * b, name) == {}
  {
    assert OfName(accepted, a * b, name) <= OfName(accepted, b, name);
  }

  ghost predicate SumsRight(st: State) {
    && (forall name :: Summed(st.core.tallies, st.accepted, st.waiting, name))
    && (forall f <- st.flights :: forall name :: Summed(f.sent.tallies, st.accepted, f.batch, name))
  }

  lemma RecordSums(st: State, s: string, duration: real, at: int)
    requires SumsRight(st) && CountsRight(st) && CopiesRight(st)
    ensures SumsRight(Next(st, Record(s, duration, at)))
  {
    hide SumIn, OfName;
    var st', sample := Next(st, Record(s, duration, at)), Sample(s, duration);
    if Takes(st.core, s) {
      forall name ensures Summed(st'.core.tallies, st'.accepted, st'.waiting, name) {
        RecordSum(st, s, duration, at, name);
      }
      forall f, name | f in st'.flights ensures Summed(f.sent.tallies, st'.accepted, f.batch, name) {
        assert Summed(f.sent.tallies, st.accepted, f.batch, name);
        SumOneMore(st.accepted, f.batch, sample, name);
      }
    }
  }

  lemma RecordSum(st: State, s: string, duration: real, at: int, name: string)
    requires SumsRight(st) && CountsRight(st) && Takes(st.core, s)
    ensures var st' := Next(st, Record(s, duration, at)); Summed(st'.core.tallies, st'.accepted, st'.waiting, name)
  {
    hide SumIn, OfName;
    assert Summed(st.core.tallies, st.accepted, st.waiting, name)
           && Right(st.core.tallies, st.accepted, st.waiting, name);
    SumOneMore(st.accepted, st.waiting, Sample(s, duration), name);
    if name !in st.core.tallies { SumNone(st.accepted, st.waiting, name); }
  }

  lemma AnswerSums(st: State, step: Step)
    requires SumsRight(st) && CountsRight(st) && CopiesRight(st) && step.Answer? && NonNegative(st.accepted)
             && CountsRight(Next(st, step))
    ensures SumsRight(Next(st, step))
  {
    hide Right, Summed, Subtract, NonNegative;
    var st' := Next(st, step);
    if step.k < |st.flights| {
      var f := st.flights[step.k];
      assert forall x :: x in st'.flights ==> x in st.flights;
      assert f in st.flights;
      if Departs(st, step) {
        forall name ensures Summed(st'.core.tallies, st.accepted, st'.waiting, name) {
          assert Right(st'.core.tallies, st.accepted, st'.waiting, name);
          SubtractSummed(st.core.tallies, f.sent.tallies, st.accepted, st.waiting, f.batch, name);
        }
      }
    }
  }

  /** In any run whose counts have always been right and whose durations are not negative, every
      bucket's sum is that of its waiting samples. */
  lemma {:induction false} SumsRightToo(steps: seq<Step>)
    requires AlwaysRight(steps) && NonNegative(Run(steps).accepted)
    ensures SumsRight(Run(steps))
    decreases |steps|
  {
    hide CountsRight, CopiesRight, SumsRight, Next, Departs;
    if steps == [] {
      NothingSummed();
    } else {
      var front, step := steps[..|steps| - 1], steps[|steps| - 1];
      AlwaysRightIff(front);
      AcceptedGrows(Run(front), step);
      SumsRightToo(front);
      var st := Run(front);
      match step
      case Record(name, duration, at) => RecordSums(st, name, duration, at);
      case Snap(at) => SnapSums(st, at);
      case Answer(k, status) => AnswerSums(st, step);
    }
  }

  lemma NothingSummed()
    ensures SumsRight(START)
  {
  }

  lemma SnapSums(st: State, at: int)
    requires SumsRight(st)
    ensures SumsRight(Next(st, Snap(at)))
  {
    hide Summed;
  }

  lemma AcceptedGrows(st: State, step: Step)
    requires NonNegative(Next(st, step).accepted)
    ensures NonNegative(st.accepted)
  {
    var acc, acc' := st.accepted, Next(st, step).accepted;
    assert forall i :: 0 <= i < |acc| ==> acc'[i] == acc[i];
  }

  // ----- An input that fails -----

  /** Two flushes of the same sample, and one that comes in between their answers: the second answer
      takes that one out too, which no copy ever held. */
  lemma OverlapLosesASample(name: string, d1: real, d2: real, now: int)
    ensures var c0 := RecordCore(Core(map[], 0, 0), name, d1, now);
            var snap := Snapshot(c0.tallies, c0.periodStart, now);
            var c1 := CompleteCore(c0, snap, Delivered);
            var c2 := RecordCore(c1, name, d2, now);
            && c1.tallies == map[] && c2.tallies.Keys == {name}
            && CompleteCore(c2, snap, Delivered).tallies == map[]
  {
    var c0 := RecordCore(Core(map[], 0, 0), name, d1, now);
    var snap := Snapshot(c0.tallies, c0.periodStart, now);
    var c1 := CompleteCore(c0, snap, Delivered);
    assert c1.tallies == map[];
    var c2 := RecordCore(c1, name, d2, now);
    assert CompleteCore(c2, snap, Delivered).tallies == map[];
  }
}
