/** Where the window sent with a flush of src/performance.c starts, in every run. */
module PerformanceWindow {
  import opened Common
  import opened Ledger
  import opened Performance
  import opened PerformanceRuns
  import opened PerformanceExact

  /** Beside the run: the end of the window of the batch that left last. */
  datatype Windowed = Windowed(t: Traced, ended: int)

  ghost function NextWindowed(w: Windowed, step: Step): Windowed
    requires Inv(w.t.st)
  {
    var leaves := step.Answer? && LeavesNow(w.t.st, step.status);
    Windowed(NextTraced(w.t, step), if leaves then w.t.st.inFlight.value.end else w.ended)
  }

  /** With samples waiting, the window starts when the last one sent ended, if one of these samples was
      there already when that batch left; else with the first of them. */
  ghost function Opens(w: Windowed): int
    requires w.t.st.book.pending != []
  {
    if w.t.Departed() < w.t.mark then w.ended else w.t.st.book.pending[0].at
  }

  ghost predicate OpensRight(w: Windowed) {
    && Tracks(w.t)
    && (w.t.st.book.pending != [] ==> w.t.st.core.periodStart == Opens(w))
    && (w.t.st.inFlight.Some? ==> w.t.st.inFlight.value.start == w.t.st.core.periodStart)
    && (w.t.st.book.pending == [] ==> w.t.Departed() == w.t.mark)
  }

  lemma RecordOpens(w: Windowed, name: string, duration: real)
    requires OpensRight(w) && Takes(w.t.st.core, name)
    ensures OpensRight(NextWindowed(w, Record(name, duration)))
  {
    hide Gone, Justified, Streak, Flies, TracksName, CountOf;
    var st := w.t.st;
    NextTracks(w.t, Record(name, duration));
    EmptyTogether(st.core.tallies, st.book.pending);
    FlightWaits(st);
  }

  /** While a batch is in flight, it waits. */
  lemma FlightWaits(st: State)
    requires Inv(st)
    ensures st.inFlight.Some? ==> st.book.pending != [] && |st.core.tallies| != 0
  {
    hide Gone, Justified, Streak, Flies, CountOf;
    EmptyTogether(st.core.tallies, st.book.pending);
  }

  lemma AnswerOpens(w: Windowed, status: int)
    requires OpensRight(w) && w.t.st.inFlight.Some?
    ensures OpensRight(NextWindowed(w, Answer(status)))
  {
    hide Gone, Justified, Holds, Flies, TracksName, Subtract;
    NextTracks(w.t, Answer(status));
    var st := w.t.st;
    PendingIs(st);
    Departs(st.book, OutcomeFor(status));
    StartAfter(st, status);
    var w' := NextWindowed(w, Answer(status));
    PendingIs(w'.t.st);
  }

  lemma StartAfter(st: State, status: int)
    requires Inv(st) && st.inFlight.Some?
    ensures Next(st, Answer(status)).core.periodStart ==
            if LeavesNow(st, status) then st.inFlight.value.end else st.core.periodStart
  {
    hide Gone, Justified, Streak, Tallied, Summed, Within, Subtract;
  }

  lemma NextOpens(w: Windowed, step: Step)
    requires OpensRight(w)
    ensures OpensRight(NextWindowed(w, step))
  {
    hide Gone, Justified, Streak, Holds, Flies, TracksName;
    NextTracks(w.t, step);
    match step
    case Tick(seconds) =>
    case Snap =>
    case Record(name, duration) => if Takes(w.t.st.core, name) { RecordOpens(w, name, duration); }
    case Answer(status) => if w.t.st.inFlight.Some? { AnswerOpens(w, status); }
  }

  lemma BeginOpens(now: int)
    ensures OpensRight(Windowed(PerformanceExact.Begin(now), 0))
  {
    BeginTracks(now);
  }

  /** In every run the window of a flush starts where the last one that was let go ended, or, the buffer
      having been empty in between, with the first sample. */
  ghost function RunWindowed(now: int, steps: seq<Step>): (w: Windowed)
    ensures OpensRight(w) && w.t.st == Run(now, steps)
    decreases |steps|
  {
    if steps == [] then BeginOpens(now); Windowed(PerformanceExact.Begin(now), 0)
    else
      var before := RunWindowed(now, steps[..|steps| - 1]);
      NextTracks(before.t, steps[|steps| - 1]);
      NextOpens(before, steps[|steps| - 1]);
      NextWindowed(before, steps[|steps| - 1])
  }

  lemma WindowStarts(now: int, steps: seq<Step>)
    requires Run(now, steps).inFlight.Some?
    ensures var w := RunWindowed(now, steps);
            w.t.st.book.pending != [] && w.t.st.inFlight.value.start == Opens(w)
  {
    hide Inv, Run, RunWindowed;
    FlightWaits(RunWindowed(now, steps).t.st);
  }
}
