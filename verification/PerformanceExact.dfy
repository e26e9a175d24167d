/** How exact the buckets of src/performance.c are, in every run, whatever the durations. A bucket's
    count always is; its maximum and its sum are under conditions proved here to be exact. */
module PerformanceExact {
  import opened Common
  import opened Ledger
  import opened Performance
  import opened PerformanceRuns

  function Longer(x: real, y: real): real { if x > y then x else y }

  /** The longest duration of that name, and no less than the nothing a bucket starts with. */
  ghost function LongestOf(ss: seq<Sample>, name: string): real {
    if ss == [] then 0.0
    else
      var s := ss[|ss| - 1];
      if s.name == name then Longer(LongestOf(ss[..|ss| - 1], name), s.duration) else LongestOf(ss[..|ss| - 1], name)
  }

  lemma {:induction false} LongestNotNegative(ss: seq<Sample>, name: string)
    ensures LongestOf(ss, name) >= 0.0
    decreases |ss|
  {
    if ss != [] { LongestNotNegative(ss[..|ss| - 1], name); }
  }

  lemma {:induction false} LongestSplit(a: seq<Sample>, b: seq<Sample>, name: string)
    ensures LongestOf(a + b, name) == Longer(LongestOf(a, name), LongestOf(b, name))
    decreases |b|
  {
    LongestNotNegative(a, name);
    if b == [] {
      assert a + b == a;
    } else {
      assert (a + b)[..|a + b| - 1] == a + b[..|b| - 1];
      LongestSplit(a, b[..|b| - 1], name);
    }
  }

  lemma LongestPush(ss: seq<Sample>, s: Sample, name: string)
    ensures LongestOf(ss + [s], name) ==
            if s.name == name then Longer(LongestOf(ss, name), s.duration) else LongestOf(ss, name)
  {
    assert (ss + [s])[..|ss|] == ss;
  }

  lemma {:induction false} NoneOf(ss: seq<Sample>, name: string)
    requires forall i :: 0 <= i < |ss| ==> ss[i].name != name
    ensures LongestOf(ss, name) == 0.0 && SumOf(ss, name) == 0.0 && CountOf(ss, name) == 0
    decreases |ss|
  {
    if ss != [] { NoneOf(ss[..|ss| - 1], name); }
  }

  // ----- One bucket -----

  /** What the clamp added to the sum when a batch last left: what was waiting then is acc[g..mark]. */
  ghost function Excess(acc: seq<Sample>, g: nat, mark: nat, born: nat, name: string): real
    requires g <= mark <= |acc|
  {
    if born >= g then 0.0 else Longer(0.0, -SumOf(acc[g..mark], name))
  }

  /** Of the samples acc accepted, the first g have left, the last time when mark were accepted. The
      bucket x of that name was made when born were accepted, none of its name waiting. */
  ghost predicate Explains(acc: seq<Sample>, g: nat, mark: nat, born: nat, x: Tally, name: string) {
    && g <= mark <= |acc| && born < |acc| && (forall i :: g <= i < born ==> acc[i].name != name)
    && x.max == LongestOf(acc[born..], name)
    && x.sum == SumOf(acc[g..], name) + Excess(acc, g, mark, born, name)
  }

  /** A copy taken when c were accepted has the bucket exactly when it was made before; and what the
      bucket holds beyond it is what came in since, whatever clamps there were earlier. */
  ghost predicate Beyond(acc: seq<Sample>, c: nat, born: nat, x: Tally, sent: Option<Tally>, name: string) {
    && c <= |acc| && (sent.Some? <==> born < c)
    && (sent.Some? ==> x.sum - sent.value.sum == SumOf(acc[c..], name))
  }

  lemma Pushed(acc: seq<Sample>, s: Sample, k: nat, name: string)
    requires k <= |acc|
    ensures (acc + [s])[k..] == acc[k..] + [s]
    ensures SumOf((acc + [s])[k..], name) == SumOf(acc[k..], name) + (if s.name == name then s.duration else 0.0)
    ensures LongestOf((acc + [s])[k..], name) ==
            if s.name == name then Longer(LongestOf(acc[k..], name), s.duration) else LongestOf(acc[k..], name)
  {
    assert (acc + [s])[k..] == acc[k..] + [s];
    PushCounts(acc[k..], s, name);
    LongestPush(acc[k..], s, name);
  }

  lemma AcceptExplains(acc: seq<Sample>, g: nat, mark: nat, born: nat, x: Tally, name: string, s: Sample)
    requires Explains(acc, g, mark, born, x, name)
    ensures Explains(acc + [s], g, mark, born, if s.name == name then Counted(x, s.duration) else x, name)
  {
    hide SumOf, LongestOf;
    Pushed(acc, s, g, name);
    Pushed(acc, s, born, name);
    assert (acc + [s])[g..mark] == acc[g..mark];
    forall i | g <= i < born ensures (acc + [s])[i].name != name { assert (acc + [s])[i] == acc[i]; }
  }

  lemma AcceptBeyond(acc: seq<Sample>, c: nat, born: nat, x: Tally, sent: Option<Tally>, name: string, s: Sample)
    requires Beyond(acc, c, born, x, sent, name)
    ensures Beyond(acc + [s], c, born, if s.name == name then Counted(x, s.duration) else x, sent, name)
  {
    hide SumOf, LongestOf;
    Pushed(acc, s, c, name);
  }

  /** The first sample of a name makes its bucket. */
  lemma MakeExplains(acc: seq<Sample>, g: nat, mark: nat, s: Sample)
    requires g <= mark <= |acc| && forall i :: g <= i < |acc| ==> acc[i].name != s.name
    ensures Explains(acc + [s], g, mark, |acc|, Counted(Tally(0, 0.0, 0.0), s.duration), s.name)
  {
    hide SumOf, LongestOf, CountOf;
    Pushed(acc, s, g, s.name);
    Pushed(acc, s, |acc|, s.name);
    NoneOf(acc[g..], s.name);
    NoneOf(acc[|acc|..], s.name);
    forall i | g <= i < |acc| ensures (acc + [s])[i].name != s.name { assert (acc + [s])[i] == acc[i]; }
  }

  /** Taking the copy out: an earlier clamp is forgotten, and a new one happens exactly when what came
      in since adds up to less than nothing. */
  lemma LeaveExplains(acc: seq<Sample>, g: nat, mark: nat, born: nat, x: Tally, name: string, c: nat,
                      sent: Option<Tally>)
    requires Explains(acc, g, mark, born, x, name) && Beyond(acc, c, born, x, sent, name) && g <= c
    ensures Explains(acc, c, |acc|, born, if sent.Some? then Left(x, sent.value) else x, name)
  {
    hide SumOf, LongestOf, CountOf;
    assert acc[c..|acc|] == acc[c..];
    if sent.None? {
      assert acc[g..] == acc[g..c] + acc[c..];
      SumSplit(acc[g..c], acc[c..], name);
      NoneOf(acc[g..c], name);
    }
  }

  // ----- Runs, with the history the conditions are about -----

  /** Beside the run: for each bucket how many samples had been accepted when it was made, and how
      many when a batch last left. */
  datatype Traced = Traced(st: State, born: map<string, nat>, mark: nat) {
    ghost function Accepted(): seq<Sample> { st.book.accepted }

    /** How many samples have left. */
    ghost function Departed(): nat { |Gone(st.book.log)| }
  }

  ghost predicate LeavesNow(st: State, status: int) { st.inFlight.Some? && Leaves(st.book, OutcomeFor(status)) }

  ghost function NextTraced(t: Traced, step: Step): Traced
    requires Inv(t.st)
  {
    var st, next := t.st, Next(t.st, step);
    match step
    case Record(name, duration) =>
      var made := Takes(st.core, name) && name !in st.core.tallies;
      Traced(next, if made then t.born[name := |st.book.accepted|] else t.born, t.mark)
    case Answer(status) => Traced(next, t.born, if LeavesNow(st, status) then |st.book.accepted| else t.mark)
    case Tick(seconds) => t.(st := next)
    case Snap => t.(st := next)
  }

  function Lookup(m: map<string, Tally>, name: string): Option<Tally> { if name in m then Some(m[name]) else None }

  ghost predicate TracksName(t: Traced, name: string) {
    name in t.st.core.tallies ==>
      && name in t.born
      && Explains(t.Accepted(), t.Departed(), t.mark, t.born[name], t.st.core.tallies[name], name)
      && (t.st.inFlight.Some? && t.st.book.flight.Some? ==>
            Beyond(t.Accepted(), t.Departed() + |t.st.book.flight.value|, t.born[name], t.st.core.tallies[name],
                   Lookup(t.st.inFlight.value.tallies, name), name))
  }

  ghost predicate Tracks(t: Traced) {
    Inv(t.st) && t.Departed() <= t.mark <= |t.Accepted()| && forall name :: TracksName(t, name)
  }

  /** What waits is what was accepted and has not left. */
  lemma PendingIs(st: State)
    requires Inv(st)
    ensures var g := |Gone(st.book.log)|; g <= |st.book.accepted| && st.book.pending == st.book.accepted[g..]
    ensures st.inFlight.Some? ==> st.book.flight.Some? && st.book.flight.value <= st.book.pending
  {
    hide Gone, Justified, Streak, Holds, Flies;
  }

  /** A bucket in the copy is still there. */
  lemma CopiedIsThere(st: State, name: string)
    requires Inv(st) && st.inFlight.Some? && name in st.inFlight.value.tallies
    ensures name in st.core.tallies
  {
    hide Gone, Justified, Streak, CountOf, SumOf;
    var batch := st.book.flight.value;
    CountSplit(batch, st.book.pending[|batch|..], name);
    assert st.book.pending == batch + st.book.pending[|batch|..];
  }

  lemma NotWaiting(st: State, name: string)
    requires Inv(st) && name !in st.core.tallies
    ensures var g := |Gone(st.book.log)|; forall i :: g <= i < |st.book.accepted| ==> st.book.accepted[i].name != name
  {
    hide Gone, Justified, Streak, CountOf, SumOf;
    PendingIs(st);
    var g := |Gone(st.book.log)|;
    forall i | g <= i < |st.book.accepted| ensures st.book.accepted[i].name != name {
      assert st.book.pending[i - g] == st.book.accepted[i];
    }
  }

  lemma RecordTracks(t: Traced, s: string, duration: real, name: string)
    requires Tracks(t) && Takes(t.st.core, s)
    ensures TracksName(NextTraced(t, Record(s, duration)), name)
  {
    hide Gone, Justified, Streak, Inv, Explains, Beyond;
    PendingIs(t.st);
    assert TracksName(t, name);
    var acc, g, sample := t.Accepted(), t.Departed(), Sample(s, duration, t.st.now);
    if name in t.st.core.tallies {
      AcceptExplains(acc, g, t.mark, t.born[name], t.st.core.tallies[name], name, sample);
      if t.st.inFlight.Some? {
        AcceptBeyond(acc, g + |t.st.book.flight.value|, t.born[name], t.st.core.tallies[name],
                     Lookup(t.st.inFlight.value.tallies, name), name, sample);
      }
    } else if name == s {
      NotWaiting(t.st, s);
      MakeExplains(acc, g, t.mark, sample);
      if t.st.inFlight.Some? {
        if name in t.st.inFlight.value.tallies { CopiedIsThere(t.st, name); }
        NotCopied(acc + [sample], g + |t.st.book.flight.value|, |acc|, Counted(Tally(0, 0.0, 0.0), duration), name);
      }
    }
  }

  lemma NotCopied(acc: seq<Sample>, c: nat, born: nat, x: Tally, name: string)
    requires c <= born <= |acc|
    ensures Beyond(acc, c, born, x, None, name)
  {
  }

  lemma JustCopied(acc: seq<Sample>, g: nat, mark: nat, born: nat, x: Tally, name: string)
    requires Explains(acc, g, mark, born, x, name)
    ensures Beyond(acc, |acc|, born, x, Some(x), name)
  {
    assert acc[|acc|..] == [];
  }

  lemma SnapTracks(t: Traced, name: string)
    requires Tracks(t)
    ensures TracksName(NextTraced(t, Snap), name)
  {
    hide Gone, Justified, Streak, Inv, Explains, Beyond;
    PendingIs(t.st);
    assert TracksName(t, name);
    if name in t.st.core.tallies {
      JustCopied(t.Accepted(), t.Departed(), t.mark, t.born[name], t.st.core.tallies[name], name);
    }
  }

  lemma Departs(b: Book<Sample>, o: Outcome)
    requires Valid(b) && b.flight.Some?
    ensures |Gone(Finish(b, o).log)| == |Gone(b.log)| + (if Leaves(b, o) then |b.flight.value| else 0)
  {
    hide Justified, Streak, Gone;
    PushUnfolds(b.log, Flush(o, b.flight.value, Leaves(b, o)));
  }

  lemma AnswerTracks(t: Traced, status: int, name: string)
    requires Tracks(t) && t.st.inFlight.Some?
    ensures TracksName(NextTraced(t, Answer(status)), name)
  {
    hide Gone, Justified, Streak, Holds, Flies, Explains, Beyond, Leaves;
    PendingIs(t.st);
    Departs(t.st.book, OutcomeFor(status));
    LeaveOrStay(t.st, status);
    assert TracksName(t, name);
    if LeavesNow(t.st, status) && name in t.st.core.tallies {
      LeaveExplains(t.Accepted(), t.Departed(), t.mark, t.born[name], t.st.core.tallies[name], name,
                    t.Departed() + |t.st.book.flight.value|, Lookup(t.st.inFlight.value.tallies, name));
    }
  }

  /** The code's failure counter decides as the book does. */
  lemma LeaveOrStay(st: State, status: int)
    requires Inv(st) && st.inFlight.Some?
    ensures Next(st, Answer(status)).core.tallies ==
            if LeavesNow(st, status) then Subtract(st.core.tallies, st.inFlight.value.tallies) else st.core.tallies
  {
    hide Gone, Justified, Streak, Tallied, Summed, Within, Subtract;
  }

  lemma NextTracks(t: Traced, step: Step)
    requires Tracks(t)
    ensures Tracks(NextTraced(t, step)) && NextTraced(t, step).st == Next(t.st, step)
  {
    hide Gone, Justified, Streak, Holds, Flies, TracksName;
    NextKeeps(t.st, step);
    PendingIs(t.st);
    var t' := NextTraced(t, step);
    forall name ensures TracksName(t', name) {
      assert TracksName(t, name);
      match step
      case Tick(seconds) => SameName(t, t', name);
      case Record(s, duration) => if Takes(t.st.core, s) { RecordTracks(t, s, duration, name); }
      case Snap => SnapTracks(t, name);
      case Answer(status) => if t.st.inFlight.Some? { AnswerTracks(t, status, name); }
    }
    if step.Answer? && t.st.inFlight.Some? { Departs(t.st.book, OutcomeFor(step.status)); }
  }

  lemma SameName(t: Traced, t': Traced, name: string)
    requires TracksName(t, name) && t' == t.(st := t.st.(now := t'.st.now))
    ensures TracksName(t', name)
  {
  }

  ghost function Begin(now: int): Traced { Traced(Start(now), map[], 0) }

  lemma BeginTracks(now: int)
    ensures Tracks(Begin(now))
  {
    StartHolds(now);
  }

  /** The same runs as before, with that history. */
  ghost function RunTraced(now: int, steps: seq<Step>): (t: Traced)
    ensures Tracks(t) && t.st == Run(now, steps)
    decreases |steps|
  {
    if steps == [] then BeginTracks(now); Begin(now)
    else
      var before := RunTraced(now, steps[..|steps| - 1]);
      NextTracks(before, steps[|steps| - 1]);
      NextTraced(before, steps[|steps| - 1])
  }

  // ----- When maximum and sum are exact -----

  /** What has left of the samples accepted since the bucket was made. */
  ghost function LeftSinceMade(t: Traced, name: string): seq<Sample>
    requires Tracks(t) && name in t.born
  {
    if t.born[name] < t.Departed() then t.Accepted()[t.born[name]..t.Departed()] else []
  }

  lemma MaxOf(acc: seq<Sample>, g: nat, born: nat, name: string)
    requires g <= |acc| && born < |acc| && forall i :: g <= i < born ==> acc[i].name != name
    ensures LongestOf(acc[born..], name) ==
            Longer(LongestOf(if born < g then acc[born..g] else [], name), LongestOf(acc[g..], name))
  {
    hide LongestOf, SumOf, CountOf;
    LongestNotNegative(acc[g..], name);
    NoneOf([], name);
    if born < g {
      assert acc[born..] == acc[born..g] + acc[g..];
      LongestSplit(acc[born..g], acc[g..], name);
    } else {
      assert acc[g..] == acc[g..born] + acc[born..];
      LongestSplit(acc[g..born], acc[born..], name);
      NoneOf(acc[g..born], name);
      LongestNotNegative(acc[born..], name);
    }
  }

  /** x is the longest duration of that name, negative ones included. */
  ghost predicate IsMax(x: real, ss: seq<Sample>, name: string) {
    && (exists i :: 0 <= i < |ss| && ss[i].name == name && ss[i].duration == x)
    && (forall i :: 0 <= i < |ss| && ss[i].name == name ==> ss[i].duration <= x)
  }

  /** Some sample of that name is not negative and no shorter than any of the others. */
  ghost predicate Outlasts(ss: seq<Sample>, others: seq<Sample>, name: string) {
    exists i :: 0 <= i < |ss| && ss[i].name == name && ss[i].duration >= 0.0 && AtLeast(ss[i].duration, others, name)
  }

  ghost predicate AtLeast(x: real, ss: seq<Sample>, name: string) {
    forall i :: 0 <= i < |ss| && ss[i].name == name ==> ss[i].duration <= x
  }

  lemma {:induction false} LongestBounds(ss: seq<Sample>, name: string)
    ensures LongestOf(ss, name) >= 0.0 && AtLeast(LongestOf(ss, name), ss, name)
    ensures LongestOf(ss, name) > 0.0 ==>
              exists i :: 0 <= i < |ss| && ss[i].name == name && ss[i].duration == LongestOf(ss, name)
    decreases |ss|
  {
    if ss != [] {
      var n := |ss| - 1;
      LongestBounds(ss[..n], name);
      assert forall i :: 0 <= i < n ==> ss[..n][i] == ss[i];
      if LongestOf(ss[..n], name) > 0.0 {
        var i :| 0 <= i < n && ss[..n][i].name == name && ss[..n][i].duration == LongestOf(ss[..n], name);
        assert ss[i].name == name;
      }
    }
  }

  /** The larger of what has left, what waits and nothing is the maximum of what waits exactly when a
      waiting sample is none of the shorter ones. */
  lemma FlooredMax(left: seq<Sample>, waiting: seq<Sample>, name: string)
    ensures var max := Longer(LongestOf(left, name), LongestOf(waiting, name));
            IsMax(max, waiting, name) <==> Outlasts(waiting, left, name)
  {
    hide LongestOf;
    LongestBounds(left, name);
    LongestBounds(waiting, name);
    var l, w := LongestOf(left, name), LongestOf(waiting, name);
    if Outlasts(waiting, left, name) {
      var i :| 0 <= i < |waiting| && waiting[i].name == name && waiting[i].duration >= 0.0
               && AtLeast(waiting[i].duration, left, name);
      assert l <= w;
      if w == 0.0 { assert waiting[i].duration == w; }
    }
  }

  /** The source says that leaving the maximum as it is never overstates what is left. In every run, a
      bucket's maximum is that of the samples waiting if and only if one of these is not negative and
      nothing that has left since the bucket was made was longer; otherwise it is larger than all. */
  lemma MaxExactIff(now: int, steps: seq<Step>, name: string)
    requires name in Run(now, steps).core.tallies
    ensures var t := RunTraced(now, steps);
            && name in t.born
            && var max, waiting := t.st.core.tallies[name].max, t.st.book.pending;
               && (IsMax(max, waiting, name) <==> Outlasts(waiting, LeftSinceMade(t, name), name))
               && AtLeast(max, waiting, name)
  {
    hide LongestOf, SumOf, CountOf, Gone, Inv, Run, RunTraced;
    var t := RunTraced(now, steps);
    assert TracksName(t, name);
    PendingIs(t.st);
    MaxOf(t.Accepted(), t.Departed(), t.born[name], name);
    var left, waiting := LeftSinceMade(t, name), t.st.book.pending;
    FlooredMax(left, waiting, name);
    LongestBounds(waiting, name);
  }

  /** In every run, a bucket's sum is that of the samples waiting if and only if it was made after the
      last batch to leave had been copied, or what was waiting when that batch left did not add up to
      less than nothing; otherwise it is too large. */
  lemma SumExactIff(now: int, steps: seq<Step>, name: string)
    requires name in Run(now, steps).core.tallies
    ensures var t := RunTraced(now, steps);
            && name in t.born && t.Departed() <= t.mark <= |t.Accepted()|
            && var exact := t.born[name] >= t.Departed() || SumOf(t.Accepted()[t.Departed()..t.mark], name) >= 0.0;
               && (t.st.core.tallies[name].sum == SumOf(t.st.book.pending, name) <==> exact)
               && (t.st.core.tallies[name].sum > SumOf(t.st.book.pending, name) <==> !exact)
  {
    hide LongestOf, SumOf, CountOf, Gone, Inv, Run, RunTraced;
    var t := RunTraced(now, steps);
    assert TracksName(t, name);
    PendingIs(t.st);
  }

  /** When a batch leaves, in any run, a bucket that stays has an exact sum if and only if what came in
      since the copy does not add up to less than nothing, whatever its sum was before. */
  lemma LeavingSumIff(now: int, steps: seq<Step>, status: int, name: string)
    requires var st := Run(now, steps); LeavesNow(st, status) && name in st.inFlight.value.tallies
    requires name in Next(Run(now, steps), Answer(status)).core.tallies
    ensures var st := Run(now, steps);
            var rest := st.book.pending[|st.book.flight.value|..];
            Next(st, Answer(status)).core.tallies[name].sum == SumOf(rest, name) <==> SumOf(rest, name) >= 0.0
  {
    hide LongestOf, SumOf, CountOf, Gone, Holds, Flies, Run, RunTraced, Justified, Streak, Leaves;
    var t := RunTraced(now, steps);
    var st, n := t.st, |t.st.book.flight.value|;
    LeaveOrStay(st, status);
    assert TracksName(t, name);
    PendingIs(st);
    assert st.book.pending[n..] == t.Accepted()[t.Departed() + n..];
  }

  // ----- Inputs that fail -----

  /** A long sample is delivered while a short one comes in: the short one is left under the long
      one's maximum, and so is the next one, although the batch that left then was shorter than it. */
  lemma MaxOverstates(name: string, now: int)
    ensures var c0 := RecordCore(Core(map[], 0, 0), name, 100.0, now);
            var c1 := RecordCore(c0, name, 5.0, now);
            var c2 := CompleteCore(c1, Snapshot(c0.tallies, c0.periodStart, now), Delivered);
            var c3 := RecordCore(c2, name, 7.0, now);
            && name in c2.tallies && c2.tallies[name] == Tally(1, 5.0, 100.0)
            && var c4 := CompleteCore(c3, Snapshot(c2.tallies, c2.periodStart, now), Delivered);
               name in c4.tallies && c4.tallies[name] == Tally(1, 7.0, 100.0)
  {
    var c0 := RecordCore(Core(map[], 0, 0), name, 100.0, now);
    assert c0.tallies[name] == Tally(1, 100.0, 100.0);
    var c1 := RecordCore(c0, name, 5.0, now);
    assert c1.tallies[name] == Tally(2, 105.0, 100.0);
    var c2 := CompleteCore(c1, Snapshot(c0.tallies, c0.periodStart, now), Delivered);
    assert c2.tallies[name] == Tally(1, 5.0, 100.0);
    var c3 := RecordCore(c2, name, 7.0, now);
    assert c3.tallies[name] == Tally(2, 12.0, 100.0);
  }

  /** A negative duration alone is overstated from the start. */
  lemma NegativeMaxOverstates(name: string, now: int)
    ensures RecordCore(Core(map[], 0, 0), name, -3.0, now).tallies[name] == Tally(1, -3.0, 0.0)
  {
  }

  /** A negative duration that comes in while the rest is delivered is left as a sum of nothing. */
  lemma SumOverstates(name: string, now: int)
    ensures var c0 := RecordCore(Core(map[], 0, 0), name, 10.0, now);
            var c1 := RecordCore(c0, name, -3.0, now);
            var c2 := CompleteCore(c1, Snapshot(c0.tallies, c0.periodStart, now), Delivered);
            name in c2.tallies && c2.tallies[name] == Tally(1, 0.0, 10.0)
  {
    var c0 := RecordCore(Core(map[], 0, 0), name, 10.0, now);
    assert c0.tallies[name] == Tally(1, 10.0, 10.0);
    var c1 := RecordCore(c0, name, -3.0, now);
    assert c1.tallies[name] == Tally(2, 7.0, 10.0);
  }
}
