/** Stops as src/spans.c takes them: id and parent are what the caller's span state holds, which may
    stem from another trace. */
module SpansStray {
  import Spans

  type Id = Spans.Id

  datatype Step = Start(id: Id) | Stop(id: Id, parent: Id) | Record(id: Id)

  /** The trace, and the ids of the spans started in it. */
  datatype State = State(core: Spans.Core, started: set<Id>)

  ghost predicate Known(st: State, id: Id) { id == st.core.root || id in st.started }

  /** Ids are fresh: a new one is none that this trace has seen. */
  ghost predicate Fresh(st: State, id: Id) { !Known(st, id) && forall s <- st.core.spans :: s.parent != id }

  ghost function Next(st: State, step: Step): State {
    match step
    case Start(id) => if Fresh(st, id) then State(Spans.StartCore(st.core, id), st.started + {id}) else st
    case Stop(id, parent) => st.(core := Spans.StopCore(st.core, id, parent))
    case Record(id) => st.(core := Spans.RecordCore(st.core, id))
  }

  ghost predicate Inv(st: State) { forall id <- st.core.open :: id in st.started }

  lemma NextKeeps(st: State, step: Step)
    requires Inv(st)
    ensures Inv(Next(st, step)) && Next(st, step).core.root == st.core.root
  {
    if step.Stop? { Spans.PullLess(st.core.open, step.id); }
  }

  ghost function Run(root: Id, steps: seq<Step>): (st: State)
    ensures Inv(st) && st.core.root == root
    decreases |steps|
  {
    if steps == [] then State(Spans.Core(root, [], []), {})
    else
      var before := Run(root, steps[..|steps| - 1]);
      NextKeeps(before, steps[|steps| - 1]);
      Next(before, steps[|steps| - 1])
  }

  /** Every span kept hangs under the root or a span started in this trace. */
  ghost predicate ParentsKnown(st: State) { forall s <- st.core.spans :: Known(st, s.parent) }

  /** A stop that is kept, there being room, hands in a parent this trace knows. */
  ghost predicate Sound(st: State, step: Step) {
    step.Stop? && |st.core.spans| < Spans.MAX_SPANS - 1 ==> Known(st, step.parent)
  }

  ghost predicate AllSound(root: Id, steps: seq<Step>)
    decreases |steps|
  {
    steps != [] ==>
      AllSound(root, steps[..|steps| - 1]) && Sound(Run(root, steps[..|steps| - 1]), steps[|steps| - 1])
  }

  lemma ParentsStep(st: State, step: Step)
    requires Inv(st)
    ensures ParentsKnown(Next(st, step)) <==> ParentsKnown(st) && Sound(st, step)
  {
    var st' := Next(st, step);
    assert forall s :: s in st.core.spans ==> s in st'.core.spans;
    match step
    case Start(id) =>
    case Record(id) =>
      assert st.core.open != [] ==> Spans.CurrentParent(st.core) in st.core.open;
    case Stop(id, parent) =>
      if |st.core.spans| < Spans.MAX_SPANS - 1 { assert Spans.Span(id, parent) in st'.core.spans; }
  }

  /** In every run, whatever is handed to stop: the spans kept all have a parent in this trace if and
      only if every stop that was kept handed in one. */
  lemma {:induction false} ParentsKnownIff(root: Id, steps: seq<Step>)
    ensures ParentsKnown(Run(root, steps)) <==> AllSound(root, steps)
    decreases |steps|
  {
    hide ParentsKnown, Sound;
    if steps == [] {
      NoneKept(root);
    } else {
      ParentsKnownIff(root, steps[..|steps| - 1]);
      ParentsStep(Run(root, steps[..|steps| - 1]), steps[|steps| - 1]);
    }
  }

  lemma NoneKept(root: Id)
    ensures ParentsKnown(State(Spans.Core(root, [], []), {}))
  {
  }

  /** A span stopped in a trace it was not started in is kept there with a parent that trace never
      had. */
  lemma StrayStop(root: Id, other: Id, id: Id)
    requires root != other
    ensures var parent := Spans.CurrentParent(Spans.Core(other, [], []));
            var here := Next(State(Spans.Core(root, [], []), {}), Stop(id, parent));
            here.core.spans == [Spans.Span(id, other)] && !ParentsKnown(here)
  {
    var here := Next(State(Spans.Core(root, [], []), {}), Stop(id, other));
    assert here.core.spans[0] == Spans.Span(id, other);
  }
}
