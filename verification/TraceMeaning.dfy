/** What a script of run-through and run-until steps means for the trace: how the threads' events
    are taken or held back, for any order in which the threads get hold of the submitted step. */
module TraceMeaning {

  datatype Event = Event(thread: nat, what: int)

  /** A step with its predicate, and the constraints that are in force while it is submitted. */
  datatype Step =
    | RunThrough(pred: Event -> bool, constraints: Event -> bool)
    | RunUntil(pred: Event -> bool, constraints: Event -> bool)

  /** The events that each thread will make, in its own order. */
  type Program = nat -> seq<Event>

  /** How far the run is: the step submitted now, the events taken, and for each thread how many
      of its events are behind it. */
  datatype St = St(current: nat, taken: seq<Event>, done: map<nat, nat>) {
    function Done(t: nat): nat {
      if t in done then done[t] else 0
    }
  }

  datatype Outcome = Outcome(consume: bool, take: bool)

  /** A run-through takes every event that meets the constraints, up to and including the first
      that satisfies its predicate; a run-until takes them up to but excluding that one. */
  function Eval(node: Step, e: Event): Outcome {
    if !node.constraints(e) then Outcome(false, false)
    else if node.RunThrough? then Outcome(node.pred(e), true)
    else Outcome(node.pred(e), !node.pred(e))
  }

  /** Thread t gets hold of the submitted step while its next event is pending. */
  function Offer(steps: seq<Step>, program: Program, st: St, t: nat): St {
    if st.current >= |steps| || st.Done(t) >= |program(t)| then st
    else
      var e := program(t)[st.Done(t)];
      var out := Eval(steps[st.current], e);
      St(if out.consume then st.current + 1 else st.current,
         if out.take then st.taken + [e] else st.taken,
         if out.take then st.done[t := st.Done(t) + 1] else st.done)
  }

  function Offers(steps: seq<Step>, program: Program, arrivals: seq<nat>): St {
    if arrivals == [] then St(0, [], map[])
    else
      var n := |arrivals| - 1;
      Offer(steps, program, Offers(steps, program, arrivals[..n]), arrivals[n])
  }

  // ---------------------------------------------------------------- the engine's form

  class Scenario {
    const steps: seq<Step>
    const program: Program
    var current: nat
    var taken: seq<Event>
    var done: map<nat, nat>

    constructor (steps: seq<Step>, program: Program)
      ensures this.steps == steps && this.program == program && State() == St(0, [], map[])
    {
      this.steps, this.program := steps, program;
      current, taken, done := 0, [], map[];
    }

    ghost function State(): St
      reads this
    {
      St(current, taken, done)
    }

    method EvalTransition(node: Step, e: Event) returns (childIndex: int, take: bool)
      ensures childIndex == (if Eval(node, e).consume then 0 else -1) && take == Eval(node, e).take
    {
      childIndex, take := -1, false;
      if !node.constraints(e) {
        return;
      }
      match node
      case RunThrough(pred, _) =>
        if pred(e) {
          childIndex := 0;
        }
        take := true;
      case RunUntil(pred, _) =>
        if pred(e) {
          childIndex := 0;
          take := false;
        } else {
          take := true;
        }
    }

    /** One turn of a thread in its controlled transition.  A thread whose event is not taken keeps
        it pending; once the script has ended the event is not controlled any more. */
    method OnControlledTransition(t: nat)
      modifies this
      ensures State() == Offer(steps, program, old(State()), t)
    {
      var i := if t in done then done[t] else 0;
      if current >= |steps| || i >= |program(t)| {
        return;
      }
      var e := program(t)[i];
      var childIndex, take := EvalTransition(steps[current], e);
      if childIndex >= 0 {
        current := current + 1;
      }
      if take {
        taken, done := taken + [e], done[t := i + 1];
      }
    }

    method Run(arrivals: seq<nat>)
      requires State() == St(0, [], map[])
      modifies this
      ensures State() == Offers(steps, program, arrivals)
    {
      for k := 0 to |arrivals|
        invariant State() == Offers(steps, program, arrivals[..k])
      {
        assert arrivals[..k + 1][..k] == arrivals[..k];
        OnControlledTransition(arrivals[k]);
      }
      assert arrivals[..|arrivals|] == arrivals;
    }
  }

  // ---------------------------------------------------------------- meaning

  /** The events taken under one consumed step, and the event on which it was consumed. */
  datatype Segment = Segment(events: seq<Event>, closer: Event)

  ghost predicate Passed(step: Step, events: seq<Event>) {
    forall e :: e in events ==> step.constraints(e) && !step.pred(e)
  }

  /** The last event of a run-through segment, and only that one, satisfies the predicate; no event
      of a run-until segment does, and the segment is closed by one that does and is not in it. */
  ghost predicate SegmentOf(step: Step, seg: Segment) {
    && step.constraints(seg.closer) && step.pred(seg.closer)
    && if step.RunUntil? then Passed(step, seg.events)
       else seg.events != [] && seg.closer == seg.events[|seg.events| - 1]
            && Passed(step, seg.events[..|seg.events| - 1])
  }

  ghost function Flatten(segs: seq<Segment>): seq<Event> {
    if segs == [] then [] else Flatten(segs[..|segs| - 1]) + segs[|segs| - 1].events
  }

  /** The events of one thread. */
  ghost function Project(log: seq<Event>, t: nat): seq<Event> {
    if log == [] then []
    else Project(log[..|log| - 1], t) + if log[|log| - 1].thread == t then [log[|log| - 1]] else []
  }

  /** The event that closed a run-until step is the one its thread does next, and it has not been
      taken: it is offered to the next step. */
  ghost predicate HeldBack(program: Program, segs: seq<Segment>, k: nat)
    requires k < |segs|
  {
    Project(Flatten(segs[..k + 1]), segs[k].closer.thread) + [segs[k].closer] <= program(segs[k].closer.thread)
  }

  /** The consumed steps, one segment each. */
  ghost predicate Consumed(steps: seq<Step>, program: Program, segs: seq<Segment>) {
    && |segs| <= |steps|
    && forall k {:trigger segs[k]} :: 0 <= k < |segs| ==>
         SegmentOf(steps[k], segs[k]) && (steps[k].RunUntil? ==> HeldBack(program, segs, k))
  }

  /** Every thread's events appear in its own order, without gaps. */
  ghost predicate InOrder(program: Program, log: seq<Event>) {
    forall t :: Project(log, t) <= program(t)
  }

  /** The taken events are one segment for each consumed step, and then events that the current
      step let pass. */
  ghost predicate Meaning(steps: seq<Step>, program: Program, segs: seq<Segment>, open: seq<Event>) {
    && Consumed(steps, program, segs)
    && (if |segs| < |steps| then Passed(steps[|segs|], open) else open == [])
    && InOrder(program, Flatten(segs) + open)
  }

  /** Events carry the thread that makes them. */
  ghost predicate WellNamed(program: Program) {
    forall t, i :: 0 <= i < |program(t)| ==> program(t)[i].thread == t
  }

  ghost predicate Counts(taken: seq<Event>, done: map<nat, nat>) {
    forall t :: (if t in done then done[t] else 0) == |Project(taken, t)|
  }

  lemma {:induction false} ProjectOneMore(log: seq<Event>, e: Event, t: nat)
    ensures Project(log + [e], t) == Project(log, t) + if e.thread == t then [e] else []
  {
    assert (log + [e])[..|log|] == log;
  }

  lemma {:induction false} FlattenOneMore(segs: seq<Segment>, seg: Segment)
    ensures Flatten(segs + [seg]) == Flatten(segs) + seg.events
  {
    assert (segs + [seg])[..|segs|] == segs;
  }

  /** One more taken event. */
  lemma {:induction false} TakeOne(program: Program, st: St, t: nat)
    requires WellNamed(program) && Counts(st.taken, st.done) && st.Done(t) < |program(t)| && InOrder(program, st.taken)
    ensures var e := program(t)[st.Done(t)];
            && e.thread == t && Project(st.taken, t) + [e] <= program(t)
            && InOrder(program, st.taken + [e])
            && Counts(st.taken + [e], st.done[t := st.Done(t) + 1])
  {
    hide Project;
    var e := program(t)[st.Done(t)];
    assert Project(st.taken, t) <= program(t) && |Project(st.taken, t)| == st.Done(t);
    assert e.thread == t;
    forall u
      ensures Project(st.taken + [e], u) == Project(st.taken, u) + if u == t then [e] else []
      ensures Project(st.taken + [e], u) <= program(u)
    {
      ProjectOneMore(st.taken, e, u);
      assert Project(st.taken, u) <= program(u);
    }
  }

  lemma {:induction false} HeldBackFrame(program: Program, segs: seq<Segment>, segs': seq<Segment>, k: nat)
    requires k < |segs| && k < |segs'| && segs[..k + 1] == segs'[..k + 1]
    ensures HeldBack(program, segs', k) <==> HeldBack(program, segs, k)
  {
    assert segs'[..k + 1][k] == segs[..k + 1][k];
  }

  lemma {:induction false} LastHeldBack(program: Program, segs: seq<Segment>, seg: Segment)
    requires Project(Flatten(segs) + seg.events, seg.closer.thread) + [seg.closer] <= program(seg.closer.thread)
    ensures HeldBack(program, segs + [seg], |segs|)
  {
    FlattenOneMore(segs, seg);
    assert (segs + [seg])[..|segs| + 1] == segs + [seg];
  }

  /** Closing the current step. */
  lemma {:induction false} CloseOne(steps: seq<Step>, program: Program, segs: seq<Segment>, seg: Segment)
    requires Consumed(steps, program, segs) && |segs| < |steps| && SegmentOf(steps[|segs|], seg)
    requires steps[|segs|].RunUntil? ==>
               Project(Flatten(segs) + seg.events, seg.closer.thread) + [seg.closer] <= program(seg.closer.thread)
    ensures Consumed(steps, program, segs + [seg])
  {
    var segs' := segs + [seg];
    forall k | 0 <= k < |segs'|
      ensures SegmentOf(steps[k], segs'[k]) && (steps[k].RunUntil? ==> HeldBack(program, segs', k))
    {
      if k < |segs| {
        assert segs'[k] == segs[k];
        HeldBackFrame(program, segs, segs', k);
      } else if steps[k].RunUntil? {
        LastHeldBack(program, segs, seg);
      }
    }
  }

  /** The state has a meaning in terms of these segments. */
  ghost predicate Explained(steps: seq<Step>, program: Program, st: St, segs: seq<Segment>, open: seq<Event>) {
    && st.current == |segs| && st.taken == Flatten(segs) + open && Counts(st.taken, st.done)
    && Meaning(steps, program, segs, open)
  }

  /** What an event offered to the current step makes of the segments. */
  ghost function Extended(step: Step, segs: seq<Segment>, open: seq<Event>, e: Event): (seq<Segment>, seq<Event>) {
    if !step.constraints(e) then (segs, open)
    else if !step.pred(e) then (segs, open + [e])
    else (segs + [Segment(if step.RunUntil? then open else open + [e], e)], [])
  }

  lemma {:induction false} OfferExplained(steps: seq<Step>, program: Program, st: St, t: nat,
                                          segs: seq<Segment>, open: seq<Event>)
    requires WellNamed(program) && Explained(steps, program, st, segs, open)
    requires st.current < |steps| && st.Done(t) < |program(t)|
    ensures var (segs', open') := Extended(steps[st.current], segs, open, program(t)[st.Done(t)]);
            Explained(steps, program, Offer(steps, program, st, t), segs', open')
  {
    hide Project, InOrder, WellNamed, Consumed, Counts;
    var e, step := program(t)[st.Done(t)], steps[st.current];
    TakeOne(program, st, t);
    assert st.taken + [e] == Flatten(segs) + (open + [e]);
    if step.constraints(e) && step.pred(e) {
      StepCloses(steps, program, segs, open, e);
    }
  }

  lemma {:induction false} StepCloses(steps: seq<Step>, program: Program,
                                      segs: seq<Segment>, open: seq<Event>, e: Event)
    requires Meaning(steps, program, segs, open) && |segs| < |steps|
    requires steps[|segs|].constraints(e) && steps[|segs|].pred(e)
    requires Project(Flatten(segs) + open, e.thread) + [e] <= program(e.thread)
    requires InOrder(program, Flatten(segs) + (open + [e]))
    ensures var seg := Segment(if steps[|segs|].RunUntil? then open else open + [e], e);
            && Meaning(steps, program, segs + [seg], [])
            && Flatten(segs + [seg]) + [] == Flatten(segs) + seg.events
  {
    var seg := Segment(if steps[|segs|].RunUntil? then open else open + [e], e);
    assert (open + [e])[..|open|] == open;
    CloseOne(steps, program, segs, seg);
    FlattenOneMore(segs, seg);
    assert Flatten(segs + [seg]) + [] == Flatten(segs) + seg.events;
  }

  /** Soundness: whatever the order of arrivals, the taken events have this meaning. */
  lemma {:induction false} TraceHasMeaning(steps: seq<Step>, program: Program, arrivals: seq<nat>)
    returns (segs: seq<Segment>, open: seq<Event>)
    requires WellNamed(program)
    ensures Explained(steps, program, Offers(steps, program, arrivals), segs, open)
  {
    segs, open := [], [];
    if arrivals != [] {
      var n := |arrivals| - 1;
      segs, open := TraceHasMeaning(steps, program, arrivals[..n]);
      var st, t := Offers(steps, program, arrivals[..n]), arrivals[n];
      if st.current < |steps| && st.Done(t) < |program(t)| {
        OfferExplained(steps, program, st, t, segs, open);
        var next := Extended(steps[st.current], segs, open, program(t)[st.Done(t)]);
        segs, open := next.0, next.1;
      }
    }
  }

  /** The event that closed a run-until step is the one offered when its thread arrives next. */
  lemma {:induction false} OfferedNext(steps: seq<Step>, program: Program, st: St, segs: seq<Segment>)
    requires WellNamed(program) && Explained(steps, program, st, segs, [])
    requires segs != [] && steps[|segs| - 1].RunUntil?
    ensures var e := segs[|segs| - 1].closer;
            st.Done(e.thread) < |program(e.thread)| && program(e.thread)[st.Done(e.thread)] == e && st.current == |segs|
  {
    var n := |segs| - 1;
    assert HeldBack(program, segs, n) by { assert segs[n] == segs[n]; }
    assert segs[..n + 1] == segs && Flatten(segs) + [] == Flatten(segs);
  }

  /** Completeness: every sequence of events with such a meaning is what some order of arrivals
      leads to. */
  lemma {:induction false} MeaningIsReachable(steps: seq<Step>, program: Program, segs: seq<Segment>, open: seq<Event>)
    returns (arrivals: seq<nat>)
    requires WellNamed(program) && Meaning(steps, program, segs, open)
    ensures Explained(steps, program, Offers(steps, program, arrivals), segs, open)
    decreases |segs|, |open|, 1
  {
    if open != [] {
      var n := |open| - 1;
      LastOpen(steps[|segs|], segs, open);
      arrivals := OneMoreTaken(steps, program, segs, open[..n], open[n]);
    } else if segs != [] {
      arrivals := LastClosed(steps, program, segs);
    } else {
      arrivals := [];
      NothingTaken(steps, program);
    }
  }

  lemma {:induction false} NothingTaken(steps: seq<Step>, program: Program)
    requires Meaning(steps, program, [], [])
    ensures Explained(steps, program, Offers(steps, program, []), [], [])
  {
  }

  lemma {:induction false} LastOpen(step: Step, segs: seq<Segment>, open: seq<Event>)
    requires open != [] && Passed(step, open)
    ensures var n := |open| - 1;
            && open[..n] + [open[n]] == open && Passed(step, open[..n])
            && Extended(step, segs, open[..n], open[n]) == (segs, open)
  {
    assert open[|open| - 1] in open;
  }

  lemma {:induction false} LastClosed(steps: seq<Step>, program: Program, segs: seq<Segment>)
    returns (arrivals: seq<nat>)
    requires WellNamed(program) && Meaning(steps, program, segs, []) && segs != []
    ensures Explained(steps, program, Offers(steps, program, arrivals), segs, [])
    decreases |segs|, 0, 0
  {
    var n := |segs| - 1;
    var seg := segs[n];
    assert segs[..n] + [Segment(seg.events, seg.closer)] == segs;
    LastSegment(steps, program, segs);
    if steps[n].RunUntil? {
      assert Extended(steps[n], segs[..n], seg.events, seg.closer) == (segs, []);
      arrivals := MeaningIsReachable(steps, program, segs[..n], seg.events);
      arrivals := OneArrival(steps, program, arrivals, segs[..n], seg.events, seg.closer);
    } else {
      var m := |seg.events| - 1;
      assert seg.events[..m] + [seg.closer] == seg.events;
      assert Extended(steps[n], segs[..n], seg.events[..m], seg.closer) == (segs, []);
      arrivals := OneMoreTaken(steps, program, segs[..n], seg.events[..m], seg.closer);
    }
  }

  /** The same with one more taken event at the end, which may be the one that closes its step. */
  lemma {:induction false} OneMoreTaken(steps: seq<Step>, program: Program,
                                        segs: seq<Segment>, open: seq<Event>, e: Event)
    returns (arrivals: seq<nat>)
    requires WellNamed(program) && Consumed(steps, program, segs) && |segs| < |steps| && Passed(steps[|segs|], open)
    requires InOrder(program, Flatten(segs) + (open + [e]))
    ensures var (segs', open') := Extended(steps[|segs|], segs, open, e);
            Explained(steps, program, Offers(steps, program, arrivals), segs', open')
    decreases |segs|, |open| + 1, 0
  {
    assert Flatten(segs) + (open + [e]) == (Flatten(segs) + open) + [e];
    Shorter(program, Flatten(segs) + open, e);
    arrivals := MeaningIsReachable(steps, program, segs, open);
    arrivals := OneArrival(steps, program, arrivals, segs, open, e);
  }

  /** What is known of the last consumed step. */
  lemma {:induction false} LastSegment(steps: seq<Step>, program: Program, segs: seq<Segment>)
    requires Meaning(steps, program, segs, []) && segs != []
    ensures var n := |segs| - 1; var seg := segs[n];
            && Consumed(steps, program, segs[..n]) && SegmentOf(steps[n], seg)
            && InOrder(program, Flatten(segs[..n]) + seg.events)
            && (steps[n].RunUntil? ==>
                  Project(Flatten(segs[..n]) + seg.events, seg.closer.thread) + [seg.closer]
                    <= program(seg.closer.thread))
  {
    var n := |segs| - 1;
    assert segs[..n] + [segs[n]] == segs && segs[..n + 1] == segs;
    FlattenOneMore(segs[..n], segs[n]);
    assert Flatten(segs) + [] == Flatten(segs);
    FewerSegments(steps, program, segs);
    assert steps[n].RunUntil? ==> HeldBack(program, segs, n);
  }

  /** If e is what its thread does next, then letting that thread arrive offers e. */
  lemma {:induction false} OneArrival(steps: seq<Step>, program: Program, before: seq<nat>,
                                      segs: seq<Segment>, open: seq<Event>, e: Event)
    returns (arrivals: seq<nat>)
    requires WellNamed(program) && Explained(steps, program, Offers(steps, program, before), segs, open)
    requires |segs| < |steps| && Project(Flatten(segs) + open, e.thread) + [e] <= program(e.thread)
    ensures var (segs', open') := Extended(steps[|segs|], segs, open, e);
            Explained(steps, program, Offers(steps, program, arrivals), segs', open')
  {
    var st := Offers(steps, program, before);
    arrivals := before + [e.thread];
    assert arrivals[..|before|] == before;
    assert program(e.thread)[st.Done(e.thread)] == e;
    OfferExplained(steps, program, st, e.thread, segs, open);
  }

  lemma {:induction false} Shorter(program: Program, log: seq<Event>, e: Event)
    requires InOrder(program, log + [e])
    ensures InOrder(program, log) && Project(log, e.thread) + [e] <= program(e.thread)
  {
    forall t ensures Project(log, t) <= Project(log + [e], t) {
      ProjectOneMore(log, e, t);
    }
    ProjectOneMore(log, e, e.thread);
  }

  lemma {:induction false} FewerSegments(steps: seq<Step>, program: Program, segs: seq<Segment>)
    requires Consumed(steps, program, segs) && segs != []
    ensures Consumed(steps, program, segs[..|segs| - 1])
  {
    var fewer := segs[..|segs| - 1];
    forall k | 0 <= k < |fewer|
      ensures SegmentOf(steps[k], fewer[k]) && (steps[k].RunUntil? ==> HeldBack(program, fewer, k))
    {
      assert fewer[..k + 1] == segs[..k + 1] && fewer[k] == segs[k];
      HeldBackFrame(program, segs, fewer, k);
    }
  }

  // ---------------------------------------------------------------- the order of arrivals

  /** One more arrival, of a thread with a pending event, while a step is submitted, does to the
      segments what that event does to them. */
  lemma {:induction false} EachArrivalCounts(steps: seq<Step>, program: Program, arrivals: seq<nat>, t: nat,
                                             segs: seq<Segment>, open: seq<Event>)
    requires WellNamed(program) && Explained(steps, program, Offers(steps, program, arrivals), segs, open)
    ensures var n := |Project(Flatten(segs) + open, t)|;
            if |segs| < |steps| && n < |program(t)| then
              var (segs', open') := Extended(steps[|segs|], segs, open, program(t)[n]);
              Explained(steps, program, Offers(steps, program, arrivals + [t]), segs', open')
            else Offers(steps, program, arrivals + [t]) == Offers(steps, program, arrivals)
  {
    var st := Offers(steps, program, arrivals);
    assert (arrivals + [t])[..|arrivals|] == arrivals;
    assert st.Done(t) == |Project(st.taken, t)|;
    if st.current < |steps| && st.Done(t) < |program(t)| {
      OfferExplained(steps, program, st, t, segs, open);
    }
  }

  /** Further arrivals add to the log and to the consumed steps, and change nothing of what is there. */
  lemma {:induction false} LogOnlyGrows(steps: seq<Step>, program: Program, arrivals: seq<nat>, more: seq<nat>)
    requires arrivals <= more
    ensures Offers(steps, program, arrivals).taken <= Offers(steps, program, more).taken
    ensures Offers(steps, program, arrivals).current <= Offers(steps, program, more).current
  {
    if |arrivals| < |more| {
      LogOnlyGrows(steps, program, arrivals, more[..|more| - 1]);
    } else {
      assert arrivals == more;
    }
  }

  /** The events of the log were taken when their threads arrived, in that order: entry i at the at[i]-th
      arrival. */
  ghost predicate TakenAt(log: seq<Event>, arrivals: seq<nat>, at: seq<nat>) {
    && |at| == |log|
    && (forall i, j :: 0 <= i < j < |at| ==> at[i] < at[j])
    && (forall i :: 0 <= i < |at| ==> at[i] < |arrivals| && arrivals[at[i]] == log[i].thread)
  }

  /** Event i of the log was taken at this arrival. */
  ghost predicate TakenThere(steps: seq<Step>, program: Program, arrivals: seq<nat>, log: seq<Event>, i: nat, a: nat) {
    && a < |arrivals| && i < |log|
    && Offers(steps, program, arrivals[..a]).taken == log[..i]
    && Offers(steps, program, arrivals[..a + 1]).taken == log[..i + 1]
  }

  lemma {:induction false} TakenEarlier(steps: seq<Step>, program: Program, arrivals: seq<nat>, log: seq<Event>,
                                        e: seq<Event>, i: nat, a: nat)
    requires arrivals != [] && TakenThere(steps, program, arrivals[..|arrivals| - 1], log, i, a)
    ensures TakenThere(steps, program, arrivals, log + e, i, a)
  {
    var before := arrivals[..|arrivals| - 1];
    assert arrivals[..a] == before[..a] && arrivals[..a + 1] == before[..a + 1];
    assert (log + e)[..i] == log[..i] && (log + e)[..i + 1] == log[..i + 1];
  }

  lemma {:induction false} TakenLast(steps: seq<Step>, program: Program, arrivals: seq<nat>)
    requires arrivals != [] && WellNamed(program)
    ensures var n := |arrivals| - 1;
            var log, log' := Offers(steps, program, arrivals[..n]).taken, Offers(steps, program, arrivals).taken;
            log' == log ||
              (|log'| == |log| + 1 && log <= log' && log'[|log|].thread == arrivals[n]
               && TakenThere(steps, program, arrivals, log', |log|, n))
  {
    var n := |arrivals| - 1;
    var log, log' := Offers(steps, program, arrivals[..n]).taken, Offers(steps, program, arrivals).taken;
    assert arrivals[..n + 1] == arrivals;
    if log' != log {
      assert log'[..|log|] == log && log'[..|log| + 1] == log';
    }
  }

  /** The threads of the log are a subsequence of the arrivals, and each event is taken at the arrival
      that it belongs to: it is the last one of the log after it. */
  lemma {:induction false} TakenInOrderOfArrival(steps: seq<Step>, program: Program, arrivals: seq<nat>)
    returns (at: seq<nat>)
    requires WellNamed(program)
    ensures var log := Offers(steps, program, arrivals).taken;
            && TakenAt(log, arrivals, at)
            && forall i :: 0 <= i < |at| ==> TakenThere(steps, program, arrivals, log, i, at[i])
  {
    hide TakenThere;
    at := [];
    if arrivals != [] {
      var n := |arrivals| - 1;
      at := TakenInOrderOfArrival(steps, program, arrivals[..n]);
      at := WithLast(steps, program, arrivals, at);
    }
  }

  lemma {:induction false} TakenAtOneMore(log: seq<Event>, more: seq<Event>, arrivals: seq<nat>, before: seq<nat>)
    requires arrivals != [] && TakenAt(log, arrivals[..|arrivals| - 1], before)
    requires more == [] || (|more| == 1 && more[0].thread == arrivals[|arrivals| - 1])
    ensures TakenAt(log + more, arrivals, if more == [] then before else before + [|arrivals| - 1])
  {
    var n := |arrivals| - 1;
    forall i | 0 <= i < |before| ensures before[i] < n && arrivals[before[i]] == log[i].thread {
      assert arrivals[..n][before[i]] == arrivals[before[i]];
    }
  }

  lemma {:induction false} WithLast(steps: seq<Step>, program: Program, arrivals: seq<nat>, before: seq<nat>)
    returns (at: seq<nat>)
    requires arrivals != [] && WellNamed(program)
    requires var log := Offers(steps, program, arrivals[..|arrivals| - 1]).taken;
             && TakenAt(log, arrivals[..|arrivals| - 1], before)
             && forall i :: 0 <= i < |before| ==>
                  TakenThere(steps, program, arrivals[..|arrivals| - 1], log, i, before[i])
    ensures var log := Offers(steps, program, arrivals).taken;
            && TakenAt(log, arrivals, at)
            && forall i :: 0 <= i < |at| ==> TakenThere(steps, program, arrivals, log, i, at[i])
  {
    hide TakenThere, Offers, TakenAt;
    var n := |arrivals| - 1;
    var log, log' := Offers(steps, program, arrivals[..n]).taken, Offers(steps, program, arrivals).taken;
    TakenLast(steps, program, arrivals);
    var more := log'[|log|..];
    assert log + more == log';
    TakenAtOneMore(log, more, arrivals, before);
    at := if more == [] then before else before + [n];
    assert |before| == |log| by { AsMany(log, arrivals[..n], before); }
    forall i | 0 <= i < |at| ensures TakenThere(steps, program, arrivals, log', i, at[i]) {
      if i < |before| {
        assert at[i] == before[i];
        TakenEarlier(steps, program, arrivals, log, more, i, before[i]);
      }
    }
  }

  lemma {:induction false} AsMany(log: seq<Event>, arrivals: seq<nat>, at: seq<nat>)
    requires TakenAt(log, arrivals, at)
    ensures |at| == |log|
  {
  }
}
