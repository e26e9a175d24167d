/** Every run of the performance tally (src/performance.c): any interleaving of records, a running
    clock, and flushes that do not overlap. */
module PerformanceRuns {
  import opened Common
  import opened Ledger
  import opened Performance

  datatype Sample = Sample(name: string, duration: real, at: int)

  // ----- What the tallies stand for -----

  ghost function CountOf(ss: seq<Sample>, name: string): nat {
    if ss == [] then 0 else CountOf(ss[..|ss| - 1], name) + (if ss[|ss| - 1].name == name then 1 else 0)
  }

  ghost function SumOf(ss: seq<Sample>, name: string): real {
    if ss == [] then 0.0
    else SumOf(ss[..|ss| - 1], name) + (if ss[|ss| - 1].name == name then ss[|ss| - 1].duration else 0.0)
  }

  /** There is a bucket for exactly the names with samples; it counts them, and none is longer than
      its maximum. */
  ghost predicate Tallied(m: map<string, Tally>, ss: seq<Sample>) {
    && (forall name :: name in m <==> CountOf(ss, name) > 0)
    && (forall name :: name in m ==> m[name].count == CountOf(ss, name))
    && (forall i :: 0 <= i < |ss| ==> ss[i].name in m && ss[i].duration <= m[ss[i].name].max)
  }

  ghost predicate Summed(m: map<string, Tally>, ss: seq<Sample>) {
    forall name :: name in m ==> m[name].sum == SumOf(ss, name)
  }

  ghost predicate NonNegative(ss: seq<Sample>) { forall i :: 0 <= i < |ss| ==> ss[i].duration >= 0.0 }

  ghost predicate Within(ss: seq<Sample>, start: int, end: int) {
    forall i :: 0 <= i < |ss| ==> start <= ss[i].at <= end
  }

  // ----- Sums over a split -----

  lemma {:induction false} CountSplit(a: seq<Sample>, b: seq<Sample>, name: string)
    ensures CountOf(a + b, name) == CountOf(a, name) + CountOf(b, name)
    decreases |b|
  {
    if b == [] {
      assert a + b == a;
    } else {
      assert (a + b)[..|a + b| - 1] == a + b[..|b| - 1];
      CountSplit(a, b[..|b| - 1], name);
    }
  }

  lemma {:induction false} SumSplit(a: seq<Sample>, b: seq<Sample>, name: string)
    ensures SumOf(a + b, name) == SumOf(a, name) + SumOf(b, name)
    decreases |b|
  {
    if b == [] {
      assert a + b == a;
    } else {
      assert (a + b)[..|a + b| - 1] == a + b[..|b| - 1];
      SumSplit(a, b[..|b| - 1], name);
    }
  }

  lemma {:induction false} SumNotNegative(ss: seq<Sample>, name: string)
    requires NonNegative(ss)
    ensures SumOf(ss, name) >= 0.0
    decreases |ss|
  {
    if ss != [] { SumNotNegative(ss[..|ss| - 1], name); }
  }

  lemma {:induction false} CountedIfThere(ss: seq<Sample>, i: nat)
    requires i < |ss|
    ensures CountOf(ss, ss[i].name) > 0
    decreases |ss|
  {
    if i < |ss| - 1 { CountedIfThere(ss[..|ss| - 1], i); }
  }

  lemma {:induction false} NothingCounted(ss: seq<Sample>, name: string)
    requires CountOf(ss, name) == 0
    ensures SumOf(ss, name) == 0.0
    decreases |ss|
  {
    if ss != [] { NothingCounted(ss[..|ss| - 1], name); }
  }

  lemma PushCounts(ss: seq<Sample>, s: Sample, name: string)
    ensures CountOf(ss + [s], name) == CountOf(ss, name) + (if s.name == name then 1 else 0)
    ensures SumOf(ss + [s], name) == SumOf(ss, name) + (if s.name == name then s.duration else 0.0)
  {
    assert (ss + [s])[..|ss|] == ss;
  }

  // ----- One step at a time -----

  lemma RecordTallies(c: Core, ss: seq<Sample>, s: Sample, now: int)
    requires Tallied(c.tallies, ss) && Takes(c, s.name)
    ensures Tallied(RecordCore(c, s.name, s.duration, now).tallies, ss + [s])
  {
    hide CountOf;
    var m := RecordCore(c, s.name, s.duration, now).tallies;
    forall name ensures (name in m <==> CountOf(ss + [s], name) > 0) { PushCounts(ss, s, name); }
    forall name | name in m ensures m[name].count == CountOf(ss + [s], name) { PushCounts(ss, s, name); }
    assert forall i :: 0 <= i < |ss| ==> (ss + [s])[i] == ss[i];
  }

  lemma RecordSums(c: Core, ss: seq<Sample>, s: Sample, now: int)
    requires Tallied(c.tallies, ss) && Takes(c, s.name) && Summed(c.tallies, ss)
    ensures Summed(RecordCore(c, s.name, s.duration, now).tallies, ss + [s])
  {
    hide CountOf, SumOf;
    var m := RecordCore(c, s.name, s.duration, now).tallies;
    forall name | name in m ensures m[name].sum == SumOf(ss + [s], name) {
      PushCounts(ss, s, name);
      if name !in c.tallies { NothingCounted(ss, name); }
    }
  }

  /** Taking a batch's tallies out of the tallies of everything leaves the tallies of the rest. */
  lemma SubtractTallies(m: map<string, Tally>, sent: map<string, Tally>, batch: seq<Sample>, rest: seq<Sample>)
    requires Tallied(m, batch + rest) && Tallied(sent, batch)
    ensures Tallied(Subtract(m, sent), rest)
  {
    var left := Subtract(m, sent);
    forall name
      ensures (name in left <==> CountOf(rest, name) > 0) && (name in left ==> left[name].count == CountOf(rest, name))
    {
      CountSplit(batch, rest, name);
    }
    forall i | 0 <= i < |rest| ensures rest[i].name in left && rest[i].duration <= left[rest[i].name].max {
      CountedIfThere(rest, i);
      assert (batch + rest)[|batch| + i] == rest[i];
    }
  }

  /** With no negative duration the sums come out exact as well: the clamp is never needed. */
  lemma SubtractSums(m: map<string, Tally>, sent: map<string, Tally>, batch: seq<Sample>, rest: seq<Sample>)
    requires Tallied(m, batch + rest) && Tallied(sent, batch)
    requires Summed(m, batch + rest) && Summed(sent, batch) && NonNegative(rest)
    ensures Summed(Subtract(m, sent), rest)
  {
    var left := Subtract(m, sent);
    forall name | name in left ensures left[name].sum == SumOf(rest, name) {
      CountSplit(batch, rest, name);
      SumSplit(batch, rest, name);
      SumNotNegative(rest, name);
      if name !in sent { NothingCounted(batch, name); }
    }
  }

  // ----- Runs -----

  datatype Step =
    | Tick(seconds: nat)
    | Record(name: string, duration: real)
    | Snap
    | Answer(status: int)

  datatype State = State(core: Core, now: int, inFlight: Option<Snapshot>, book: Book<Sample>)

  function Start(now: int): State { State(Core(map[], 0, 0), now, None, Book([], [], [], None)) }

  /** The buffer against the samples waiting. */
  ghost predicate Holds(st: State) {
    && Tallied(st.core.tallies, st.book.pending)
    && (NonNegative(st.book.accepted) ==> Summed(st.core.tallies, st.book.pending))
    && Within(st.book.pending, st.core.periodStart, st.now)
    && |st.core.tallies| <= MAX_TRANSACTIONS
    && st.core.failures == Streak(st.book.log)
  }

  /** The copy in flight against its batch, and what came in since. */
  ghost predicate Flies(st: State, snap: Snapshot, batch: seq<Sample>)
    requires batch <= st.book.pending
  {
    && Tallied(snap.tallies, batch)
    && (NonNegative(st.book.accepted) ==> Summed(snap.tallies, batch))
    && Within(batch, snap.start, snap.end)
    && Within(st.book.pending[|batch|..], snap.end, st.now)
    && snap.end <= st.now
  }

  ghost predicate Inv(st: State) {
    && Valid(st.book) && Holds(st)
    && (st.inFlight.Some? <==> st.book.flight.Some?)
    && (st.inFlight.Some? ==> Flies(st, st.inFlight.value, st.book.flight.value))
  }

  ghost function Next(st: State, step: Step): State
    requires Inv(st)
  {
    match step
    case Tick(seconds) => st.(now := st.now + seconds)
    case Record(name, duration) =>
      if Takes(st.core, name) then
        st.(core := RecordCore(st.core, name, duration, st.now),
            book := Accept(st.book, Sample(name, duration, st.now)))
      else st
    case Snap =>
      // a flush of nothing does nothing; a second flush does not start during the first
      EmptyTogether(st.core.tallies, st.book.pending);
      if st.inFlight.Some? || |st.core.tallies| == 0 then st
      else st.(inFlight := Some(Snapshot(st.core.tallies, st.core.periodStart, st.now)), book := Begin(st.book))
    case Answer(status) =>
      if st.inFlight.None? then st
      else st.(core := CompleteCore(st.core, st.inFlight.value, OutcomeFor(status)), inFlight := None,
               book := Finish(st.book, OutcomeFor(status)))
  }

  /** The buffer is empty exactly when no sample is waiting. */
  lemma EmptyTogether(m: map<string, Tally>, ss: seq<Sample>)
    requires Tallied(m, ss)
    ensures |m| == 0 <==> ss == []
  {
    if ss == [] {
      assert forall name :: name !in m;
      assert m == map[];
    } else {
      assert ss[0].name in m;
    }
  }

  lemma RecordKeeps(st: State, name: string, duration: real)
    requires Inv(st) && Takes(st.core, name)
    ensures Inv(Next(st, Record(name, duration)))
  {
    hide CountOf, SumOf, Gone, Justified, Streak;
    var s := Sample(name, duration, st.now);
    var st' := Next(st, Record(name, duration));
    AcceptKeeps(st.book, s);
    RecordTallies(st.core, st.book.pending, s, st.now);
    if Summed(st.core.tallies, st.book.pending) { RecordSums(st.core, st.book.pending, s, st.now); }
    EmptyTogether(st.core.tallies, st.book.pending);
    hide Tallied, Summed, Valid;
    assert NonNegative(st'.book.accepted) ==> NonNegative(st.book.accepted) by {
      assert forall i :: 0 <= i < |st.book.accepted| ==> st'.book.accepted[i] == st.book.accepted[i];
    }
    assert st.book.pending != [] ==> st.core.periodStart <= st.book.pending[0].at <= st.now;
    assert Within(st'.book.pending, st'.core.periodStart, st.now);
    if st.inFlight.Some? {
      var n := |st.book.flight.value|;
      assert st'.book.pending[n..] == st.book.pending[n..] + [s];
    }
  }

  lemma SnapKeeps(st: State)
    requires Inv(st)
    ensures Inv(Next(st, Snap))
  {
    hide CountOf, SumOf, Gone, Justified, Streak, Tallied, Summed;
    EmptyTogether(st.core.tallies, st.book.pending);
  }

  lemma AnswerKeeps(st: State, status: int)
    requires Inv(st)
    ensures Inv(Next(st, Answer(status)))
  {
    hide CountOf, SumOf, Gone, Justified, Streak, Tallied, Summed;
    if st.inFlight.Some? {
      var o, sent, batch := OutcomeFor(status), st.inFlight.value, st.book.flight.value;
      FinishKeeps(st.book, o);
      if Leaves(st.book, o) {
        var rest := st.book.pending[|batch|..];
        assert st.book.pending == batch + rest;
        SubtractTallies(st.core.tallies, sent.tallies, batch, rest);
        if NonNegative(st.book.accepted) {
          RestNonNegative(st.book, rest);
          SubtractSums(st.core.tallies, sent.tallies, batch, rest);
        }
        NoMoreBuckets(st.core.tallies, sent.tallies);
      }
    }
  }

  lemma RestNonNegative(b: Book<Sample>, rest: seq<Sample>)
    requires Valid(b) && NonNegative(b.accepted) && |rest| <= |b.pending| && rest == b.pending[|b.pending| - |rest|..]
    ensures NonNegative(rest)
  {
    hide Gone;
    var k := |b.accepted| - |rest|;
    forall i | 0 <= i < |rest| ensures rest[i].duration >= 0.0 { assert rest[i] == b.accepted[k + i]; }
  }

  lemma NoMoreBuckets(m: map<string, Tally>, sent: map<string, Tally>)
    ensures |Subtract(m, sent)| <= |m|
  {
    SubsetSize(Subtract(m, sent).Keys, m.Keys);
  }

  lemma NextKeeps(st: State, step: Step)
    requires Inv(st)
    ensures Inv(Next(st, step))
  {
    hide CountOf, SumOf, Gone, Justified, Streak, Tallied, Summed;
    match step
    case Tick(seconds) =>
    case Record(name, duration) => if Takes(st.core, name) { RecordKeeps(st, name, duration); }
    case Snap => SnapKeeps(st);
    case Answer(status) => AnswerKeeps(st, status);
  }

  lemma StartHolds(now: int)
    ensures Inv(Start(now))
  {
  }

  ghost function Run(now: int, steps: seq<Step>): (st: State)
    ensures Inv(st)
    decreases |steps|
  {
    StartHolds(now);
    if steps == [] then Start(now)
    else
      var before := Run(now, steps[..|steps| - 1]);
      NextKeeps(before, steps[|steps| - 1]);
      Next(before, steps[|steps| - 1])
  }

  // ----- What that means -----

  lemma {:induction false} GoneIsSentOrDropped(log: seq<Flush<Sample>>, name: string)
    ensures CountOf(Gone(log), name) == CountOf(Sent(log), name) + CountOf(Dropped(log), name)
    ensures SumOf(Gone(log), name) == SumOf(Sent(log), name) + SumOf(Dropped(log), name)
    decreases |log|
  {
    if log != [] {
      var front, f := log[..|log| - 1], log[|log| - 1];
      GoneIsSentOrDropped(front, name);
      var sent := if f.removed && f.outcome == Delivered then f.batch else [];
      var dropped := if f.removed && f.outcome != Delivered then f.batch else [];
      CountSplit(Gone(front), if f.removed then f.batch else [], name);
      CountSplit(Sent(front), sent, name);
      CountSplit(Dropped(front), dropped, name);
      SumSplit(Gone(front), if f.removed then f.batch else [], name);
      SumSplit(Sent(front), sent, name);
      SumSplit(Dropped(front), dropped, name);
    }
  }

  function CountIn(m: map<string, Tally>, name: string): nat { if name in m then m[name].count else 0 }

  function SumIn(m: map<string, Tally>, name: string): real { if name in m then m[name].sum else 0.0 }

  /** In every run, for every transaction name, the samples accepted are those delivered, those
      dropped (rejected, or failed for the fifth time in a row) and those in its bucket; and, no
      duration being negative, so are their durations. */
  lemma Conserved(now: int, steps: seq<Step>, name: string)
    ensures var st := Run(now, steps); var b := st.book;
            && CountOf(b.accepted, name) == CountOf(Sent(b.log), name) + CountOf(Dropped(b.log), name)
               + CountIn(st.core.tallies, name)
            && (NonNegative(b.accepted) ==>
                  SumOf(b.accepted, name) == SumOf(Sent(b.log), name) + SumOf(Dropped(b.log), name)
                    + SumIn(st.core.tallies, name))
            && Justified(b.log)
  {
    hide CountOf, SumOf, Gone, Justified, Streak;
    var st := Run(now, steps);
    var b := st.book;
    CountSplit(Gone(b.log), b.pending, name);
    SumSplit(Gone(b.log), b.pending, name);
    GoneIsSentOrDropped(b.log, name);
    if name !in st.core.tallies { NothingCounted(b.pending, name); }
  }

  /** In every run every bucket has counted something, there are never more than 500, and when a
      flush comes to take out its batch the bucket is there and holds at least as much: neither the
      missing-bucket branch nor a clamp is ever taken. */
  lemma NeverClamped(now: int, steps: seq<Step>, name: string)
    ensures var st := Run(now, steps);
            && (name in st.core.tallies ==> st.core.tallies[name].count >= 1) && |st.core.tallies| <= 500
            && (st.inFlight.Some? && name in st.inFlight.value.tallies ==>
                  var sent := st.inFlight.value.tallies[name];
                  && name in st.core.tallies && st.core.tallies[name].count >= sent.count
                  && (NonNegative(st.book.accepted) ==> st.core.tallies[name].sum - sent.sum >= 0.0))
  {
    hide CountOf, SumOf, Gone, Justified, Streak, Run, Within;
    var st := Run(now, steps);
    if st.inFlight.Some? && name in st.inFlight.value.tallies {
      var batch := st.book.flight.value;
      var rest := st.book.pending[|batch|..];
      assert st.book.pending == batch + rest;
      CountSplit(batch, rest, name);
      if NonNegative(st.book.accepted) {
        SumSplit(batch, rest, name);
        RestNonNegative(st.book, rest);
        SumNotNegative(rest, name);
      }
    }
  }

  /** In every run every sample of the batch in flight was recorded inside the window sent with it,
      and no waiting sample lasted longer than its bucket's maximum. */
  lemma InsideWindow(now: int, steps: seq<Step>, i: nat)
    ensures var st := Run(now, steps);
            && (st.inFlight.Some? && i < |st.book.flight.value| ==>
                  st.inFlight.value.start <= st.book.flight.value[i].at <= st.inFlight.value.end)
            && (i < |st.book.pending| ==>
                  var s := st.book.pending[i]; s.name in st.core.tallies && s.duration <= st.core.tallies[s.name].max)
  {
    hide CountOf, SumOf, Gone, Justified, Streak, Summed;
    assert Inv(Run(now, steps));
  }
}
