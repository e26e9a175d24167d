/** One thread's trace (src/spans.c): the depth-capped stack of open spans, and every run of starts,
    stops in any order, and finished spans recorded. */
module Spans {
  import opened Common

  const MAX_DEPTH: nat := 64
  const MAX_SPANS: nat := 500

  type Id = string

  datatype Span = Span(id: Id, parent: Id)

  // ----- What each call does to the trace -----

  datatype Core = Core(root: Id, open: seq<Id>, spans: seq<Span>)

  function CurrentParent(c: Core): Id { if c.open != [] then c.open[|c.open| - 1] else c.root }

  /** A span opened deeper than the stack is tracked nests under the deepest one tracked. */
  function StartCore(c: Core, id: Id): Core { if |c.open| < MAX_DEPTH then c.(open := c.open + [id]) else c }

  /** Room is left for the root. */
  function Keep(c: Core, s: Span): Core { if |c.spans| >= MAX_SPANS - 1 then c else c.(spans := c.spans + [s]) }

  /** s without the last occurrence of id. */
  function Pull(s: seq<Id>, id: Id): seq<Id> {
    if s == [] then []
    else if s[|s| - 1] == id then s[..|s| - 1]
    else Pull(s[..|s| - 1], id) + [s[|s| - 1]]
  }

  function StopCore(c: Core, id: Id, parent: Id): Core { Keep(c.(open := Pull(c.open, id)), Span(id, parent)) }

  function RecordCore(c: Core, id: Id): Core { Keep(c, Span(id, CurrentParent(c))) }

  /** What is queued at the end: the root first. */
  function Sent(c: Core, remoteParent: Id): seq<Span> { [Span(c.root, remoteParent)] + c.spans }

  class Trace {
    const root: Id
    const open: array<Id>
    var openCount: nat
    var spans: seq<Span>

    ghost predicate Valid()
      reads this
    {
      open.Length == MAX_DEPTH && openCount <= open.Length
    }

    ghost function Contents(): Core
      requires Valid()
      reads this, open
    {
      Core(root, open[..openCount], spans)
    }

    constructor (rootSpanId: Id)
      ensures Valid() && fresh(open) && Contents() == Core(rootSpanId, [], [])
    {
      root, spans, openCount := rootSpanId, [], 0;
      open := new Id[MAX_DEPTH](_ => "");
    }

    method Start(id: Id) returns (parent: Id)
      requires Valid()
      modifies `openCount, open
      ensures Valid() && parent == CurrentParent(old(Contents())) && Contents() == StartCore(old(Contents()), id)
    {
      parent := if openCount > 0 then open[openCount - 1] else root;
      if openCount < MAX_DEPTH {
        open[openCount] := id;
        openCount := openCount + 1;
      }
    }

    method Stop(id: Id, parent: Id)
      requires Valid()
      modifies this, open
      ensures Valid() && Contents() == StopCore(old(Contents()), id, parent)
    {
      hide Pull;
      ghost var before := open[..openCount];
      var i: nat := openCount;
      while i > 0 && open[i - 1] != id
        invariant i <= openCount && Valid() && open[..openCount] == before
        invariant forall k :: i <= k < openCount ==> before[k] != id
      {
        i := i - 1;
      }
      PullIs(before, id, i);
      if i > 0 {
        CloseGap(i - 1);
        openCount := openCount - 1;
      }
      Append(Span(id, parent));
    }

    /** memmove of the ids above the one to remove. */
    method CloseGap(at: nat)
      requires Valid() && at < openCount
      modifies open
      ensures open[..openCount - 1] == old(open[..at]) + old(open[at + 1..openCount])
    {
      for k := at to openCount - 1
        invariant forall j :: 0 <= j < at ==> open[j] == old(open[j])
        invariant forall j :: at <= j < k ==> open[j] == old(open[j + 1])
        invariant forall j :: k <= j < openCount ==> open[j] == old(open[j])
        modifies open
      {
        open[k] := open[k + 1];
      }
    }

    method Record(id: Id)
      requires Valid()
      modifies `spans
      ensures Valid() && Contents() == RecordCore(old(Contents()), id)
    {
      Append(Span(id, if openCount > 0 then open[openCount - 1] else root));
    }

    method Append(s: Span)
      requires Valid()
      modifies `spans
      ensures Valid() && Contents() == Keep(old(Contents()), s)
      ensures spans == if |old(spans)| < 499 then old(spans) + [s] else old(spans)
    {
      if |spans| < MAX_SPANS - 1 { spans := spans + [s]; }
    }
  }

  /** Searching from the top, i is just past the last occurrence, or 0. */
  lemma {:induction false} PullIs(s: seq<Id>, id: Id, i: nat)
    requires i <= |s| && (i > 0 ==> s[i - 1] == id) && forall k :: i <= k < |s| ==> s[k] != id
    ensures Pull(s, id) == if i == 0 then s else s[..i - 1] + s[i..]
    decreases |s|
  {
    if s != [] && i < |s| {
      var n := |s| - 1;
      PullIs(s[..n], id, i);
      assert s == s[..n] + [s[n]];
      if i > 0 { assert s[..n][..i - 1] + s[..n][i..] + [s[n]] == s[..i - 1] + s[i..]; }
    }
  }

  // ----- Runs of one trace -----

  datatype Step = Start(id: Id) | Stop(id: Id) | Record(id: Id)

  /** A span recorded when it was over, and how many had been started by then. */
  datatype Recorded = Recorded(span: Span, after: nat)

  /** The trace; every span started so far with its parent, in start order; the ids of those not
      stopped yet, in start order; and the spans recorded. */
  datatype State = State(core: Core, started: seq<Span>, live: seq<Id>, recorded: seq<Recorded>)

  ghost predicate Known(st: State, id: Id) {
    id == st.core.root || exists k :: 0 <= k < |st.started| && st.started[k].id == id
  }

  /** Ids are fresh, and a span is stopped once, in the trace it was started in. */
  ghost predicate Enabled(st: State, step: Step) {
    match step
    case Start(id) => !Known(st, id)
    case Stop(id) => id in st.live
    case Record(id) => true
  }

  ghost function ParentOf(started: seq<Span>, id: Id): Id {
    if started == [] then ""
    else if started[|started| - 1].id == id then started[|started| - 1].parent
    else ParentOf(started[..|started| - 1], id)
  }

  ghost function Next(st: State, step: Step): State {
    if !Enabled(st, step) then st
    else
      match step
      case Start(id) =>
        State(StartCore(st.core, id), st.started + [Span(id, CurrentParent(st.core))], st.live + [id], st.recorded)
      case Stop(id) =>
        st.(core := StopCore(st.core, id, ParentOf(st.started, id)), live := Pull(st.live, id))
      case Record(id) =>
        st.(core := RecordCore(st.core, id),
            recorded := st.recorded + [Recorded(Span(id, CurrentParent(st.core)), |st.started|)])
  }

  /** Every span's parent is the root or a span started before it. */
  ghost predicate Rooted(started: seq<Span>, root: Id) {
    forall k :: 0 <= k < |started| ==> HasParent(started, root, k)
  }

  ghost predicate HasParent(started: seq<Span>, root: Id, k: nat)
    requires k < |started|
  {
    StartedBefore(started, root, k, started[k].parent)
  }

  /** The root, or one of the first n spans started. */
  ghost predicate StartedBefore(started: seq<Span>, root: Id, n: nat, id: Id)
    requires n <= |started|
  {
    id == root || exists j :: 0 <= j < n && started[j].id == id
  }

  /** A span that is kept was stopped, and then is as it was started, or was recorded. */
  ghost predicate KeptAsStarted(st: State) {
    forall s <- st.core.spans :: s in st.started || exists r :: r in st.recorded && r.span == s
  }

  ghost predicate RecordedUnder(st: State, r: Recorded) {
    r.after <= |st.started| && StartedBefore(st.started, st.core.root, r.after, r.span.parent)
  }

  ghost predicate Distinct(s: seq<Id>) { forall i, j :: 0 <= i < j < |s| ==> s[i] != s[j] }

  /** a can be got from b by leaving elements out. */
  ghost predicate Subsequence(a: seq<Id>, b: seq<Id>) {
    || a == []
    || (&& b != []
        && (|| (a[|a| - 1] == b[|b| - 1] && Subsequence(a[..|a| - 1], b[..|b| - 1]))
            || Subsequence(a, b[..|b| - 1])))
  }

  ghost predicate Inv(st: State) {
    && Rooted(st.started, st.core.root)
    && Subsequence(st.core.open, st.live) && Distinct(st.live)
    && (forall id <- st.live :: exists k :: 0 <= k < |st.started| && st.started[k].id == id)
    && (forall s <- st.core.spans :: Known(st, s.parent))
    && KeptAsStarted(st) && (forall r <- st.recorded :: RecordedUnder(st, r))
    && |st.core.open| <= 64 && |Sent(st.core, "")| <= 500
  }

  // ----- Subsequences -----

  lemma {:induction false} SubsequenceIn(a: seq<Id>, b: seq<Id>, id: Id)
    requires Subsequence(a, b) && id in a
    ensures id in b
    decreases |b|
  {
    if a[|a| - 1] == b[|b| - 1] && Subsequence(a[..|a| - 1], b[..|b| - 1]) {
      if id != a[|a| - 1] {
        assert a == a[..|a| - 1] + [a[|a| - 1]];
        SubsequenceIn(a[..|a| - 1], b[..|b| - 1], id);
      }
    } else {
      SubsequenceIn(a, b[..|b| - 1], id);
    }
  }

  lemma SubsequencePush(a: seq<Id>, b: seq<Id>, id: Id)
    requires Subsequence(a, b)
    ensures Subsequence(a + [id], b + [id]) && Subsequence(a, b + [id])
  {
    assert (a + [id])[..|a|] == a && (b + [id])[..|b|] == b;
  }

  lemma {:induction false} PullAbsent(s: seq<Id>, id: Id)
    requires id !in s
    ensures Pull(s, id) == s
  {
    if s != [] {
      assert s == s[..|s| - 1] + [s[|s| - 1]];
      PullAbsent(s[..|s| - 1], id);
    }
  }

  lemma {:induction false} PullLess(s: seq<Id>, id: Id)
    ensures |Pull(s, id)| <= |s| && (forall x <- Pull(s, id) :: x in s)
    decreases |s|
  {
    if s != [] {
      assert s == s[..|s| - 1] + [s[|s| - 1]];
      PullLess(s[..|s| - 1], id);
    }
  }

  lemma DistinctPush(s: seq<Id>, x: Id)
    requires Distinct(s) && x !in s
    ensures Distinct(s + [x])
  {
  }

  lemma {:induction false} PullDistinct(s: seq<Id>, id: Id)
    requires Distinct(s)
    ensures Distinct(Pull(s, id)) && id !in Pull(s, id)
    decreases |s|
  {
    if s != [] {
      var front, x := s[..|s| - 1], s[|s| - 1];
      assert Distinct(front) && x !in front;
      if x != id {
        PullDistinct(front, id);
        PullLess(front, id);
        DistinctPush(Pull(front, id), x);
      }
    }
  }

  /** Taking the same id out of both keeps one a subsequence of the other. */
  lemma {:induction false} SubsequencePull(a: seq<Id>, b: seq<Id>, id: Id)
    requires Subsequence(a, b) && Distinct(b)
    ensures Subsequence(Pull(a, id), Pull(b, id))
    decreases |b|
  {
    if a != [] {
      var a', b' := a[..|a| - 1], b[..|b| - 1];
      var x, y := a[|a| - 1], b[|b| - 1];
      assert a == a' + [x] && b == b' + [y];
      if x == y && Subsequence(a', b') {
        if x != id {
          SubsequencePull(a', b', id);
          SubsequencePush(Pull(a', id), Pull(b', id), x);
        }
      } else {
        if y == id {
          if id in a { SubsequenceIn(a, b', id); }
          PullAbsent(a, id);
        } else {
          SubsequencePull(a, b', id);
          SubsequencePush(Pull(a, id), Pull(b', id), y);
        }
      }
    }
  }

  // ----- Every step keeps the invariant -----

  lemma ParentKnown(st: State)
    requires Inv(st)
    ensures Known(st, CurrentParent(st.core))
  {
    hide Rooted, Distinct, Subsequence;
    if st.core.open != [] {
      var id := CurrentParent(st.core);
      assert id in st.core.open;
      SubsequenceIn(st.core.open, st.live, id);
    }
  }

  lemma StartKeeps(st: State, id: Id)
    requires Inv(st) && !Known(st, id)
    ensures Inv(Next(st, Start(id)))
  {
    hide Subsequence, Distinct;
    var st' := Next(st, Start(id));
    ParentKnown(st);
    assert forall k :: 0 <= k < |st.started| ==> st'.started[k] == st.started[k];
    assert st'.started[|st.started|].id == id;
    SubsequencePush(st.core.open, st.live, id);
    DistinctPush(st.live, id);
    assert HasParent(st'.started, st.core.root, |st.started|);
    assert forall k :: 0 <= k < |st.started| && HasParent(st.started, st.core.root, k) ==>
             HasParent(st'.started, st.core.root, k);
    assert Rooted(st'.started, st.core.root);
    forall x | x in st'.live ensures exists k :: 0 <= k < |st'.started| && st'.started[k].id == x { }
  }

  lemma {:induction false} ParentOfIs(started: seq<Span>, root: Id, id: Id)
    requires Rooted(started, root) && exists k :: 0 <= k < |started| && started[k].id == id
    ensures ParentOf(started, id) == root || exists k :: 0 <= k < |started| && started[k].id == ParentOf(started, id)
    decreases |started|
  {
    var n := |started| - 1;
    if started[n].id == id {
      assert HasParent(started, root, n);
    } else {
      var front := started[..n];
      assert forall k :: 0 <= k < n ==> front[k] == started[k];
      forall k | 0 <= k < n ensures HasParent(front, root, k) { assert HasParent(started, root, k); }
      ParentOfIs(front, root, id);
    }
  }

  lemma {:induction false} ParentOfStarted(started: seq<Span>, id: Id)
    requires exists k :: 0 <= k < |started| && started[k].id == id
    ensures Span(id, ParentOf(started, id)) in started
    decreases |started|
  {
    var n := |started| - 1;
    if started[n].id != id {
      assert forall k :: 0 <= k < n ==> started[..n][k] == started[k];
      ParentOfStarted(started[..n], id);
    }
  }

  lemma StopKeeps(st: State, id: Id)
    requires Inv(st) && id in st.live
    ensures Inv(Next(st, Stop(id)))
  {
    hide Subsequence, Distinct, Rooted, Pull;
    var st' := Next(st, Stop(id));
    ParentOfIs(st.started, st.core.root, id);
    ParentOfStarted(st.started, id);
    SubsequencePull(st.core.open, st.live, id);
    PullDistinct(st.live, id);
    PullLess(st.live, id);
    PullLess(st.core.open, id);
    assert Known(st, ParentOf(st.started, id));
    forall s | s in st'.core.spans ensures Known(st', s.parent) { }
  }

  lemma NextKeeps(st: State, step: Step)
    requires Inv(st)
    ensures Inv(Next(st, step))
  {
    hide Inv;
    if Enabled(st, step) {
      match step
      case Start(id) => StartKeeps(st, id);
      case Stop(id) => StopKeeps(st, id);
      case Record(id) => RecordKeeps(st, id);
    }
  }

  lemma RecordKeeps(st: State, id: Id)
    requires Inv(st)
    ensures Inv(Next(st, Record(id)))
  {
    hide Subsequence, Distinct, Rooted;
    ParentKnown(st);
    var st' := Next(st, Record(id));
    forall s | s in st'.core.spans ensures Known(st', s.parent) { }
  }

  function Begin(root: Id): State { State(Core(root, [], []), [], [], []) }

  lemma BeginKeeps(root: Id)
    ensures Inv(Begin(root))
  {
  }

  lemma NextRoot(st: State, step: Step)
    ensures Next(st, step).core.root == st.core.root
  {
    hide Enabled, Pull, ParentOf;
  }

  /** In every run of a trace, however its spans are stopped (see Inv): every span started or recorded
      has the root or an earlier-started span as its parent, and the spans kept are among these, a
      stopped one with the parent it was started under; the open stack is a subsequence of the spans
      not stopped, in start order; with the root at most 500 are sent. */
  ghost function Run(root: Id, steps: seq<Step>): (st: State)
    ensures Inv(st) && st.core.root == root
    decreases |steps|
  {
    BeginKeeps(root);
    if steps == [] then Begin(root)
    else
      var before := Run(root, steps[..|steps| - 1]);
      NextKeeps(before, steps[|steps| - 1]);
      NextRoot(before, steps[|steps| - 1]);
      Next(before, steps[|steps| - 1])
  }

  /** The chain of parents from the k-th span started on: it always ends at the root. */
  ghost function Chain(started: seq<Span>, root: Id, k: nat): (path: seq<Id>)
    requires Rooted(started, root) && k < |started|
    ensures |path| >= 2 && path[0] == started[k].id && path[|path| - 1] == root
    ensures forall i :: 0 <= i < |path| - 1 ==> Span(path[i], path[i + 1]) in started
    decreases k
  {
    var s := started[k];
    assert HasParent(started, root, k);
    if s.parent == root then [s.id, root]
    else
      var j :| 0 <= j < k && started[j].id == s.parent;
      var rest := Chain(started, root, j);
      var path := [s.id] + rest;
      assert forall i :: 0 < i < |path| ==> path[i] == rest[i - 1];
      path
  }

  // ----- Last in, first out -----

  ghost predicate IsLifo(st: State, step: Step) { step.Stop? ==> st.live != [] && step.id == st.live[|st.live| - 1] }

  ghost predicate LifoRun(root: Id, steps: seq<Step>)
    decreases |steps|
  {
    steps == [] || (LifoRun(root, steps[..|steps| - 1]) && IsLifo(Run(root, steps[..|steps| - 1]), steps[|steps| - 1]))
  }

  /** The stack holds the outermost spans not stopped, 64 of them at most. */
  ghost predicate Stacked(st: State) { st.core.open == st.live[..Min(|st.live|, MAX_DEPTH)] }

  lemma LifoKeeps(st: State, step: Step)
    requires Inv(st) && Stacked(st) && IsLifo(st, step)
    ensures Stacked(Next(st, step))
  {
    hide Subsequence, Rooted;
    if Enabled(st, step) {
      match step
      case Start(id) =>
      case Record(id) =>
      case Stop(id) =>
        var n := |st.live| - 1;
        assert Pull(st.live, id) == st.live[..n];
        if |st.live| <= MAX_DEPTH {
          assert st.core.open == st.live && Pull(st.core.open, id) == st.live[..n];
        } else {
          assert id !in st.core.open;
          PullAbsent(st.core.open, id);
        }
    }
  }

  /** Under last-in-first-out use, with k spans open the next one's parent is the min(k, 64)-th of
      them, or the root when there is none. */
  lemma {:induction false} LifoParent(root: Id, steps: seq<Step>)
    requires LifoRun(root, steps)
    ensures var st := Run(root, steps);
            var k := Min(|st.live|, 64);
            Stacked(st) && CurrentParent(st.core) == if k == 0 then root else st.live[k - 1]
    decreases |steps|
  {
    hide Next, Inv;
    if steps != [] {
      LifoParent(root, steps[..|steps| - 1]);
      LifoKeeps(Run(root, steps[..|steps| - 1]), steps[|steps| - 1]);
    }
  }
}
