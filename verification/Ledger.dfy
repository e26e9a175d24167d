/** The accounting behind a buffered, batched delivery (src/metrics.c, src/performance.c): what was
    accepted, what each finished flush did, and what is still waiting. The buffers proper know none
    of this; their steps are shown to follow it. */
module Ledger {
  import opened Common

  datatype Outcome = Delivered | Rejected | Failed

  /** src/client.c: a 2xx is delivered, a 4xx no retry can fix is rejected, the rest may pass. */
  function OutcomeFor(status: int): Outcome {
    if 200 <= status < 300 then Delivered
    else if 400 <= status < 500 && status != 408 && status != 429 then Rejected
    else Failed
  }

  /** By its hundreds: 2 is delivered, 4 rejected but for the two that ask to try again, all else failed. */
  lemma OutcomeByHundreds(status: int)
    ensures OutcomeFor(status) == Delivered <==> status / 100 == 2
    ensures OutcomeFor(status) == Rejected <==> status / 100 == 4 && status !in {408, 429}
  {
  }

  const MAX_FAILURES: nat := 5

  /** A batch is let go when it was delivered or rejected, or has failed too often in a row. */
  predicate LetGo(failures: nat, o: Outcome) { o != Failed || failures + 1 >= MAX_FAILURES }

  /** One finished flush: its batch, and whether the batch left the buffer. */
  datatype Flush<T> = Flush(outcome: Outcome, batch: seq<T>, removed: bool)

  datatype Book<T> = Book(accepted: seq<T>, log: seq<Flush<T>>, pending: seq<T>, flight: Option<seq<T>>)

  /** Everything that has left the buffer, in the order it left. */
  ghost function Gone<T>(log: seq<Flush<T>>): seq<T> {
    if log == [] then []
    else Gone(log[..|log| - 1]) + (if log[|log| - 1].removed then log[|log| - 1].batch else [])
  }

  /** What was delivered, and what was let go (rejected, or failed once too often). */
  ghost function Sent<T>(log: seq<Flush<T>>): seq<T> {
    if log == [] then []
    else
      var f := log[|log| - 1];
      Sent(log[..|log| - 1]) + (if f.removed && f.outcome == Delivered then f.batch else [])
  }

  ghost function Dropped<T>(log: seq<Flush<T>>): seq<T> {
    if log == [] then []
    else
      var f := log[|log| - 1];
      Dropped(log[..|log| - 1]) + (if f.removed && f.outcome != Delivered then f.batch else [])
  }

  /** How many flushes in a row, up to the last one, have failed and kept their batch. */
  ghost function Streak<T>(log: seq<Flush<T>>): nat {
    if log == [] || log[|log| - 1].removed then 0 else 1 + Streak(log[..|log| - 1])
  }

  /** Flush i is the fifth failure in a row, the four before it having kept their batches. */
  ghost predicate FifthFailure<T>(log: seq<Flush<T>>, i: nat) {
    && 4 <= i < |log| && log[i].outcome == Failed
    && forall j :: i - 4 <= j < i ==> log[j].outcome == Failed && !log[j].removed
  }

  /** A batch left exactly when it was delivered, rejected, or failed for the fifth time in a row. */
  ghost predicate Justified<T>(log: seq<Flush<T>>) {
    forall i :: 0 <= i < |log| ==>
      log[i].batch != [] && (log[i].removed <==> log[i].outcome != Failed || FifthFailure(log, i))
  }

  ghost predicate Valid<T>(b: Book<T>) {
    && b.accepted == Gone(b.log) + b.pending
    && (b.flight.Some? ==> b.flight.value != [] && b.flight.value <= b.pending)
    && Justified(b.log)
    && Streak(b.log) < MAX_FAILURES
  }

  function Accept<T>(b: Book<T>, x: T): Book<T> {
    b.(accepted := b.accepted + [x], pending := b.pending + [x])
  }

  /** A flush takes everything waiting as its batch. */
  function Begin<T>(b: Book<T>): Book<T>
    requires b.flight.None? && b.pending != []
  {
    b.(flight := Some(b.pending))
  }

  ghost predicate Leaves<T>(b: Book<T>, o: Outcome) { LetGo(Streak(b.log), o) }

  ghost function Finish<T>(b: Book<T>, o: Outcome): Book<T>
    requires Valid(b) && b.flight.Some?
  {
    var batch := b.flight.value;
    Book(b.accepted, b.log + [Flush(o, batch, Leaves(b, o))],
         if Leaves(b, o) then b.pending[|batch|..] else b.pending, None)
  }

  // ----- Every step keeps the book -----

  lemma AcceptKeeps<T>(b: Book<T>, x: T)
    requires Valid(b)
    ensures Valid(Accept(b, x))
  {
    assert Gone(b.log) + b.pending + [x] == Gone(b.log) + (b.pending + [x]);
  }

  lemma {:induction false} StreakIsRun<T>(log: seq<Flush<T>>)
    requires Justified(log)
    ensures Streak(log) <= |log|
    ensures forall j :: |log| - Streak(log) <= j < |log| ==> log[j].outcome == Failed && !log[j].removed
    ensures Streak(log) < |log| ==> log[|log| - Streak(log) - 1].removed
  {
    if log != [] && !log[|log| - 1].removed {
      var front := log[..|log| - 1];
      JustifiedPrefix(log);
      StreakIsRun(front);
      assert forall j :: 0 <= j < |front| ==> log[j] == front[j];
    }
  }

  lemma JustifiedPrefix<T>(log: seq<Flush<T>>)
    requires Justified(log) && log != []
    ensures Justified(log[..|log| - 1])
  {
    var front := log[..|log| - 1];
    forall i | 0 <= i < |front|
      ensures front[i].batch != [] && (front[i].removed <==> front[i].outcome != Failed || FifthFailure(front, i))
    {
      assert front[i] == log[i];
      assert FifthFailure(front, i) == FifthFailure(log, i);
    }
  }

  lemma JustifiedPush<T>(log: seq<Flush<T>>, f: Flush<T>)
    requires Justified(log) && f.batch != []
    requires f.removed <==> f.outcome != Failed || Streak(log) + 1 >= MAX_FAILURES
    requires Streak(log) < MAX_FAILURES
    ensures Justified(log + [f])
  {
    hide Streak;
    var log' := log + [f];
    assert forall j :: 0 <= j < |log| ==> log'[j] == log[j];
    forall i | 0 <= i < |log'|
      ensures log'[i].batch != [] && (log'[i].removed <==> log'[i].outcome != Failed || FifthFailure(log', i))
    {
      if i < |log| {
        assert log'[i] == log[i] && log[i].batch != [];
        assert FifthFailure(log', i) == FifthFailure(log, i);
      } else if f.outcome == Failed {
        FifthIsStreak(log, f);
      }
    }
  }

  lemma FifthIsStreak<T>(log: seq<Flush<T>>, f: Flush<T>)
    requires Justified(log) && f.outcome == Failed && Streak(log) < MAX_FAILURES
    ensures FifthFailure(log + [f], |log|) <==> Streak(log) + 1 >= MAX_FAILURES
  {
    hide Streak, Justified;
    var log' := log + [f];
    StreakIsRun(log);
    assert forall j :: 0 <= j < |log| ==> log'[j] == log[j];
    if Streak(log) + 1 < MAX_FAILURES && |log| >= MAX_FAILURES - 1 {
      var j := |log| - Streak(log) - 1;
      assert log'[j].removed;
    }
  }

  lemma FinishKeeps<T>(b: Book<T>, o: Outcome)
    requires Valid(b) && b.flight.Some?
    ensures Valid(Finish(b, o)) && Streak(Finish(b, o).log) == if Leaves(b, o) then 0 else Streak(b.log) + 1
  {
    hide Justified, Streak, Gone;
    var batch, rest := b.flight.value, b.pending[|b.flight.value|..];
    var f := Flush(o, batch, Leaves(b, o));
    JustifiedPush(b.log, f);
    PushUnfolds(b.log, f);
    assert b.pending == batch + rest;
    assert Gone(b.log) + (batch + rest) == Gone(b.log) + batch + rest;
    assert Gone(b.log) + [] == Gone(b.log);
  }

  lemma PushUnfolds<T>(log: seq<Flush<T>>, f: Flush<T>)
    ensures Gone(log + [f]) == Gone(log) + (if f.removed then f.batch else [])
    ensures Streak(log + [f]) == if f.removed then 0 else 1 + Streak(log)
  {
    assert (log + [f])[..|log|] == log;
  }
}
