/** Whether a trace that is sent (src/spans.c) is a tree by itself: a span's parent may be missing from
    it, still open when the trace ended or left out for want of room. */
module SpansSent {
  import opened Spans

  /** The run of a trace, and the spans that were stopped when there was no more room. */
  datatype Trail = Trail(st: State, dropped: set<Id>)

  ghost predicate IsStarted(st: State, id: Id) { exists k :: 0 <= k < |st.started| && st.started[k].id == id }

  ghost predicate IsRecorded(st: State, id: Id) { exists r :: r in st.recorded && r.span.id == id }

  ghost predicate IsKept(st: State, id: Id) { exists s :: s in st.core.spans && s.id == id }

  /** Ids are fresh: a new one is neither the root's nor one used before. */
  ghost predicate Fresh(st: State, id: Id) { !Known(st, id) && !IsRecorded(st, id) }

  ghost predicate Allowed(st: State, step: Step) { if step.Stop? then step.id in st.live else Fresh(st, step.id) }

  predicate Full(st: State) { |st.core.spans| >= MAX_SPANS - 1 }

  ghost function Advance(t: Trail, step: Step): Trail {
    if !Allowed(t.st, step) then t
    else Trail(Next(t.st, step), if step.Stop? && Full(t.st) then t.dropped + {step.id} else t.dropped)
  }

  /** A span started is still open, or was dropped, or is kept, and only one of these. */
  ghost predicate Accounted(t: Trail, id: Id) {
    && (IsStarted(t.st, id) <==> id in t.st.live || id in t.dropped || (IsKept(t.st, id) && !IsRecorded(t.st, id)))
    && !(id in t.st.live && id in t.dropped)
    && (IsKept(t.st, id) ==> id !in t.st.live && id !in t.dropped && id != t.st.core.root)
    && (IsStarted(t.st, id) || IsRecorded(t.st, id) ==> id != t.st.core.root)
    && !(IsStarted(t.st, id) && IsRecorded(t.st, id))
  }

  ghost predicate AllAccounted(t: Trail) { Inv(t.st) && forall id :: Accounted(t, id) }

  // ----- Steps -----

  lemma StartedPush(st: State, id: Id, x: Id)
    requires Fresh(st, id)
    ensures var st' := Next(st, Start(id));
            && (IsStarted(st', x) <==> IsStarted(st, x) || x == id)
            && (IsKept(st', x) <==> IsKept(st, x)) && (IsRecorded(st', x) <==> IsRecorded(st, x))
            && (x in st'.live <==> x in st.live || x == id)
  {
    var st' := Next(st, Start(id));
    assert forall k :: 0 <= k < |st.started| ==> st'.started[k] == st.started[k];
    assert st'.started[|st.started|].id == id;
  }

  lemma StartAccounts(t: Trail, id: Id)
    requires AllAccounted(t) && Fresh(t.st, id)
    ensures forall x :: Accounted(Advance(t, Start(id)), x)
  {
    var t' := Advance(t, Start(id));
    NotUsed(t, id);
    forall x ensures Accounted(t', x) {
      assert Accounted(t, x);
      StartedPush(t.st, id, x);
      RootStays(t.st, Start(id));
    }
  }

  /** A fresh id is in no list. */
  lemma NotUsed(t: Trail, id: Id)
    requires AllAccounted(t) && Fresh(t.st, id)
    ensures !IsStarted(t.st, id) && !IsKept(t.st, id) && id !in t.st.live && id !in t.dropped && id != t.st.core.root
  {
    assert Accounted(t, id);
  }

  lemma RootStays(st: State, step: Step)
    ensures Next(st, step).core.root == st.core.root
  {
    NextRoot(st, step);
  }

  lemma KeptPush(c: Core, s: Span, x: Span)
    ensures x in Keep(c, s).spans <==> x in c.spans || (|c.spans| < MAX_SPANS - 1 && x == s)
  {
  }

  lemma {:induction false} PullRest(s: seq<Id>, id: Id, x: Id)
    requires Distinct(s)
    ensures x in Pull(s, id) <==> x in s && x != id
    decreases |s|
  {
    if s != [] {
      var n := |s| - 1;
      assert s == s[..n] + [s[n]] && Distinct(s[..n]) && s[n] !in s[..n];
      PullRest(s[..n], id, x);
    }
  }

  lemma StopMoves(st: State, id: Id, x: Id)
    requires Inv(st) && id in st.live
    ensures var st' := Next(st, Stop(id));
            && (IsStarted(st', x) <==> IsStarted(st, x)) && (IsRecorded(st', x) <==> IsRecorded(st, x))
            && (IsKept(st', x) <==> IsKept(st, x) || (x == id && !Full(st)))
            && (x in st'.live <==> x in st.live && x != id)
  {
    hide Inv, Subsequence, Rooted, Pull;
    var st' := Next(st, Stop(id));
    DistinctLive(st);
    PullRest(st.live, id, x);
    var s := Span(id, ParentOf(st.started, id));
    forall y ensures y in st'.core.spans <==> y in st.core.spans || (!Full(st) && y == s) {
      KeptPush(st.core.(open := Pull(st.core.open, id)), s, y);
    }
  }

  lemma DistinctLive(st: State)
    requires Inv(st)
    ensures Distinct(st.live)
  {
  }

  lemma StopAccounts(t: Trail, id: Id)
    requires AllAccounted(t) && id in t.st.live
    ensures forall x :: Accounted(Advance(t, Stop(id)), x)
  {
    hide Inv, IsStarted, IsKept, IsRecorded;
    var t' := Advance(t, Stop(id));
    assert Accounted(t, id);
    forall x ensures Accounted(t', x) {
      assert Accounted(t, x);
      StopMoves(t.st, id, x);
      RootStays(t.st, Stop(id));
      hide Next;
    }
  }

  lemma RecordAdds(st: State, id: Id, x: Id)
    ensures var st' := Next(st, Record(id));
            && (IsStarted(st', x) <==> IsStarted(st, x)) && (x in st'.live <==> x in st.live)
            && (IsRecorded(st', x) <==> IsRecorded(st, x) || x == id)
            && (IsKept(st', x) <==> IsKept(st, x) || (x == id && !Full(st)))
  {
    var st' := Next(st, Record(id));
    var r := Recorded(Span(id, CurrentParent(st.core)), |st.started|);
    assert forall y :: y in st'.recorded <==> y in st.recorded || y == r;
    forall y ensures y in st'.core.spans <==> y in st.core.spans || (!Full(st) && y == r.span) {
      KeptPush(st.core, r.span, y);
    }
  }

  lemma RecordAccounts(t: Trail, id: Id)
    requires AllAccounted(t) && Fresh(t.st, id)
    ensures forall x :: Accounted(Advance(t, Record(id)), x)
  {
    hide Inv, IsStarted, IsKept;
    var t' := Advance(t, Record(id));
    NotUsed(t, id);
    forall x ensures Accounted(t', x) {
      assert Accounted(t, x);
      RecordAdds(t.st, id, x);
      RootStays(t.st, Record(id));
    }
  }

  lemma AdvanceAccounts(t: Trail, step: Step)
    requires AllAccounted(t)
    ensures AllAccounted(Advance(t, step)) && Advance(t, step).st.core.root == t.st.core.root
  {
    hide Inv, Accounted;
    if Allowed(t.st, step) {
      NextKeeps(t.st, step);
      RootStays(t.st, step);
      match step
      case Start(id) => StartAccounts(t, id);
      case Stop(id) => StopAccounts(t, id);
      case Record(id) => RecordAccounts(t, id);
    }
  }

  lemma BeginAccounts(root: Id)
    ensures AllAccounted(Trail(Begin(root), {}))
  {
    BeginKeeps(root);
  }

  ghost function RunTrail(root: Id, steps: seq<Step>): (t: Trail)
    ensures AllAccounted(t) && t.st.core.root == root
    decreases |steps|
  {
    BeginAccounts(root);
    if steps == [] then Trail(Begin(root), {})
    else
      var before := RunTrail(root, steps[..|steps| - 1]);
      AdvanceAccounts(before, steps[|steps| - 1]);
      Advance(before, steps[|steps| - 1])
  }

  // ----- When every parent is sent as well -----

  /** Every span of the trace sent hangs under one that is sent too. */
  ghost predicate ParentsSent(c: Core, remoteParent: Id) {
    forall s <- c.spans :: exists p :: p in Sent(c, remoteParent) && p.id == s.parent
  }

  /** No span kept has a parent that is still open or was dropped. */
  ghost predicate NoneOrphaned(t: Trail) {
    forall s <- t.st.core.spans :: s.parent !in t.st.live && s.parent !in t.dropped
  }

  lemma ParentSentIff(t: Trail, remoteParent: Id, s: Span)
    requires AllAccounted(t) && s in t.st.core.spans
    ensures (exists p :: p in Sent(t.st.core, remoteParent) && p.id == s.parent) <==>
            s.parent !in t.st.live && s.parent !in t.dropped
  {
    var c := t.st.core;
    assert Accounted(t, s.parent) && Accounted(t, c.root) && Known(t.st, s.parent);
    assert Sent(c, remoteParent)[0] == Span(c.root, remoteParent);
    assert forall p :: p in Sent(c, remoteParent) <==> p == Span(c.root, remoteParent) || p in c.spans;
    if s.parent != c.root {
      assert (exists p :: p in Sent(c, remoteParent) && p.id == s.parent) <==> IsKept(t.st, s.parent);
    } else {
      assert Span(c.root, remoteParent) in Sent(c, remoteParent);
    }
  }

  /** In every run: ended now, the trace sent holds the parent of each of its spans if and only if none
      of these parents is still open or was dropped for want of room. */
  lemma ParentsSentIff(root: Id, steps: seq<Step>, remoteParent: Id)
    ensures var t := RunTrail(root, steps); ParentsSent(t.st.core, remoteParent) <==> NoneOrphaned(t)
  {
    hide AllAccounted, RunTrail, Sent;
    var t := RunTrail(root, steps);
    forall s | s in t.st.core.spans
      ensures (exists p :: p in Sent(t.st.core, remoteParent) && p.id == s.parent) <==>
              s.parent !in t.st.live && s.parent !in t.dropped
    {
      ParentSentIff(t, remoteParent, s);
    }
  }

  /** A span is stopped, the one around it is not when the trace ends: it is sent without its parent. */
  lemma Orphan(root: Id, outer: Id, inner: Id)
    requires root != outer && root != inner && outer != inner
    ensures var t0 := Trail(Begin(root), {});
            var t := Advance(Advance(Advance(t0, Start(outer)), Start(inner)), Stop(inner));
            t.st.core.spans == [Span(inner, outer)] && t.st.live == [outer] && !NoneOrphaned(t)
  {
    hide Advance, NoneOrphaned;
    var t0 := Trail(Begin(root), {});
    StartOuter(root, outer);
    var t1 := Advance(t0, Start(outer));
    StartInner(t1, root, outer, inner);
    var t2 := Advance(t1, Start(inner));
    StopInner(t2, outer, inner);
  }

  lemma StartOuter(root: Id, outer: Id)
    requires root != outer
    ensures Advance(Trail(Begin(root), {}), Start(outer)) ==
            Trail(State(Core(root, [outer], []), [Span(outer, root)], [outer], []), {})
  {
    var st := Begin(root);
    assert Fresh(st, outer);
  }

  lemma StartInner(t: Trail, root: Id, outer: Id, inner: Id)
    requires root != inner && outer != inner
    requires t == Trail(State(Core(root, [outer], []), [Span(outer, root)], [outer], []), {})
    ensures var t' := Advance(t, Start(inner));
            && t'.st.core == Core(root, [outer, inner], []) && t'.st.live == [outer, inner]
            && t'.st.started == [Span(outer, root), Span(inner, outer)]
  {
    assert Fresh(t.st, inner);
  }

  lemma StopInner(t: Trail, outer: Id, inner: Id)
    requires outer != inner && t.st.core.open == [outer, inner] && t.st.core.spans == [] && t.st.live == [outer, inner]
    requires |t.st.started| == 2 && t.st.started[1] == Span(inner, outer)
    ensures var t' := Advance(t, Stop(inner));
            t'.st.core.spans == [Span(inner, outer)] && t'.st.live == [outer] && !NoneOrphaned(t')
  {
    assert [outer, inner][..1] == [outer];
    var t' := Advance(t, Stop(inner));
    assert t'.st.core.spans[0] == Span(inner, outer);
  }
}
