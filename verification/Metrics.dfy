/** The metric buffer of src/metrics.c: its steps under the lock, and every run of them. */
module Metrics {
  import opened Common
  import opened Ledger

  const MAX_ENTRIES: nat := 1000

  type Entry = string // one encoded JSON object

  // ----- What each locked section does to the buffer -----

  datatype Core = Core(entries: seq<Entry>, failures: nat)

  function RecordCore(c: Core, e: Entry): Core {
    if |c.entries| >= MAX_ENTRIES then c else c.(entries := c.entries + [e])
  }

  /** More entries are to be taken out than there are. In C the size of the memmove then wraps around,
      and what happens is undefined. */
  predicate Overruns(c: Core, n: nat, o: Outcome) { LetGo(c.failures, o) && n > |c.entries| }

  /** The answer to a flush of the first n entries. */
  function CompleteCore(c: Core, n: nat, o: Outcome): Core
    requires !Overruns(c, n, o)
  {
    if LetGo(c.failures, o) then Core(c.entries[n..], 0) else c.(failures := c.failures + 1)
  }

  /** buffer_t: a fixed array filled from the front. */
  class Buffer {
    const entries: array<Entry>
    var count: nat
    var consecutiveFailures: nat

    ghost predicate Valid()
      reads this
    {
      entries.Length == MAX_ENTRIES && count <= entries.Length
    }

    ghost function Contents(): Core
      requires Valid()
      reads this, entries
    {
      Core(entries[..count], consecutiveFailures)
    }

    constructor ()
      ensures Valid() && fresh(entries) && Contents() == Core([], 0)
    {
      entries := new Entry[MAX_ENTRIES](_ => "");
      count, consecutiveFailures := 0, 0;
    }

    /** Drops the newest entry when full; says whether it was kept. */
    method Record(e: Entry) returns (kept: bool)
      requires Valid()
      modifies `count, entries
      ensures Valid() && Contents() == RecordCore(old(Contents()), e)
      ensures kept <==> old(count) < 1000
    {
      if count >= MAX_ENTRIES { return false; }
      entries[count] := e;
      count := count + 1;
      kept := true;
    }

    /** The first locked section of a flush: the batch is everything there is. */
    method Snapshot() returns (batch: seq<Entry>)
      requires Valid()
      ensures batch == Contents().entries
    {
      batch := [];
      for i := 0 to count
        invariant batch == entries[..i]
      {
        batch := batch + [entries[i]];
      }
    }

    /** The second one, once a batch of n entries was answered with this status. It stops short of
        the memmove, and says so, where that would overrun. */
    method Complete(n: nat, status: int) returns (defined: bool)
      requires Valid()
      modifies `count, `consecutiveFailures, entries
      ensures Valid() && (defined <==> !Overruns(old(Contents()), n, OutcomeFor(status)))
      ensures defined ==> Contents() == CompleteCore(old(Contents()), n, OutcomeFor(status))
      ensures !defined ==> Contents() == old(Contents()).(failures := 0)
    {
      if OutcomeFor(status) == Failed {
        consecutiveFailures := consecutiveFailures + 1;
        if consecutiveFailures < MAX_FAILURES { return true; }
      }
      consecutiveFailures := 0;
      if n > count { return false; }
      MoveUp(n);
      count := count - n;
      defined := true;
    }

    /** memmove of what was recorded while the request was in flight. */
    method MoveUp(n: nat)
      requires Valid() && n <= count
      modifies entries
      ensures entries[..count - n] == old(entries[n..count])
    {
      for i := 0 to count - n
        invariant forall k :: 0 <= k < i ==> entries[k] == old(entries[n + k])
        invariant forall k :: i <= k < count ==> entries[k] == old(entries[k])
        modifies entries
      {
        entries[i] := entries[i + n];
      }
    }
  }

  // ----- Runs: any interleaving of records with flushes that do not overlap -----

  /** The status of the answer is arbitrary (0 stands for no answer). */
  datatype Step = Record(e: Entry) | Snapshot | Answer(status: int)

  /** The buffer, how many of its entries are in flight, and the book kept beside it. */
  datatype State = State(core: Core, inFlight: Option<nat>, book: Book<Entry>)

  const START := State(Core([], 0), None, Book([], [], [], None))

  ghost predicate Inv(st: State) {
    && Valid(st.book)
    && st.core.entries == st.book.pending
    && st.core.failures == Streak(st.book.log)
    && |st.core.entries| <= MAX_ENTRIES
    && match st.inFlight
       case None => st.book.flight.None?
       case Some(n) => n <= |st.core.entries| && st.book.flight == Some(st.core.entries[..n])
  }

  /** A flush of an empty buffer does nothing; a second flush does not start during the first. */
  ghost function Next(st: State, step: Step): State
    requires Inv(st)
  {
    match step
    case Record(e) =>
      st.(core := RecordCore(st.core, e),
          book := if |st.core.entries| < MAX_ENTRIES then Accept(st.book, e) else st.book)
    case Snapshot =>
      if st.inFlight.Some? || st.core.entries == [] then st
      else st.(inFlight := Some(|st.core.entries|), book := Begin(st.book))
    case Answer(status) =>
      if st.inFlight.None? then st
      else
        var o := OutcomeFor(status);
        State(CompleteCore(st.core, st.inFlight.value, o), None, Finish(st.book, o))
  }

  lemma NextKeeps(st: State, step: Step)
    requires Inv(st)
    ensures Inv(Next(st, step))
  {
    hide Justified, Gone, Streak;
    match step
    case Record(e) =>
      AcceptKeeps(st.book, e);
      if st.inFlight.Some? && |st.core.entries| < MAX_ENTRIES {
        var n := st.inFlight.value;
        assert (st.core.entries + [e])[..n] == st.core.entries[..n];
      }
    case Snapshot =>
      assert st.core.entries[..|st.core.entries|] == st.core.entries;
    case Answer(status) =>
      if st.inFlight.Some? { FinishKeeps(st.book, OutcomeFor(status)); }
  }

  lemma StartValid()
    ensures Inv(START)
  {
  }

  /** In every run: what was accepted is, in order, the batches that left followed by what is in the
      buffer; a batch in flight is a prefix of the buffer; a batch left when it was delivered,
      rejected or had failed for the fifth time in a row, and then always; and the buffer never holds
      more than 1000 entries. */
  ghost function Run(steps: seq<Step>): (st: State)
    ensures Inv(st)
    ensures st.book.accepted == Gone(st.book.log) + st.core.entries && |st.core.entries| <= 1000
    ensures st.inFlight.Some? ==> st.book.flight == Some(st.core.entries[..st.inFlight.value])
    ensures Justified(st.book.log) && st.core.failures == Streak(st.book.log) < 5
    decreases |steps|
  {
    if steps == [] then StartValid(); START
    else
      var before := Run(steps[..|steps| - 1]);
      NextKeeps(before, steps[|steps| - 1]);
      Next(before, steps[|steps| - 1])
  }
}
