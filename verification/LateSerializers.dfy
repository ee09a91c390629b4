/** Response serializers appended to a Request whose completions have been called: appendResponseSerializer hands their
    processing to the request's own queue. */
module LateSerializers {
  import opened Bits
  import opened Sequences
  import opened SerializerPipeline

  /** The request, the calls of processNextResponseSerializer still queued, what was appended, and the attempt the
      serializers run in. */
  datatype Late = Late(request: State, due: nat, appended: seq<nat>, attempt: nat)

  /** Process: the queue gets to the next call. Transition: cancel, suspend or resume. */
  datatype LateAction =
    | Append(serializer: nat) | Process | Ended(k: nat) | Finishing | Change(to: Lifecycle)

  predicate LateEnabled(w: Late, a: LateAction)
  {
    match a
    case Append(_) => true
    case Process => w.due > 0
    case Ended(k) => k < |w.request.dispatched|
    case Finishing => true
    case Change(to) => to.Cancelled? || to.Suspended? || to.Resumed?
  }

  function LateNext(w: Late, a: LateAction): Late
    requires LateEnabled(w, a)
  {
    match a
    case Append(serializer) =>
      var (request, more) := SerializerAppended(w.request, serializer);
      w.(request := request, due := if more then w.due + 1 else w.due, appended := w.appended + [serializer])
    case Process => w.(request := ProcessedNext(w.request, w.attempt), due := w.due - 1)
    case Ended(k) =>
      w.(request := SerializerCompleted(w.request.(dispatched := Without(w.request.dispatched, k)),
                                        w.request.dispatched[k], w.attempt))
    case Finishing => w.(request := FinishCalled(w.request, w.attempt))
    case Change(to) => w.(request := Transitioned(w.request, to))
  }

  predicate LateRun(w: Late, actions: seq<LateAction>)
    decreases |actions|
  {
    actions == [] || (LateEnabled(w, actions[0]) && LateRun(LateNext(w, actions[0]), actions[1..]))
  }

  function LateEnd(w: Late, actions: seq<LateAction>): Late
    requires LateRun(w, actions)
    decreases |actions|
  {
    if actions == [] then w else LateEnd(LateNext(w, actions[0]), actions[1..])
  }

  /** Nothing is waiting, at work or due, and everything appended has been called, in order. */
  ghost predicate LateDrained(w: Late, before: seq<Run>)
  {
    var s := w.request;
    && s.responseSerializers == [] && w.due == 0 && s.dispatched == []
    && s.called == before + Runs(w.appended, |w.appended|, w.attempt)
    && (s.state.Finished? || s.state.Cancelled?)
  }

  /** The serializer appended last is due or at work, once, and everything before it has been called. */
  ghost predicate Serving(w: Late, before: seq<Run>)
  {
    var s, last := w.request, |w.appended| - 1;
    && w.appended != [] && s.responseSerializers == [w.appended[last]]
    && ((w.due == 1 && s.dispatched == []) || (w.due == 0 && s.dispatched == [Run(w.appended[last], w.attempt)]))
    && s.called == before + Runs(w.appended, last, w.attempt)
    && !s.state.Finished? && !s.state.Initialized?
  }

  ghost predicate LateInv(w: Late, before: seq<Run>)
  {
    && w.request.processingFinished && !w.request.isFinishing && w.request.responseSerializerCompletions == []
    && (LateDrained(w, before) || Serving(w, before))
  }

  /** A request that has called its completions is in this state. */
  lemma CalledIsDrained(w: World)
    requires Inv(w) && w.request.processingFinished
    ensures LateInv(Late(w.request, 0, [], w.attempt), w.request.called)
  {
  }

  /** At most one serializer is due or at work. */
  predicate Single(w: Late)
  {
    w.due + |w.request.dispatched| <= 1
  }

  /** The action starts processing, and what was appended before is not done. */
  predicate Hasty(w: Late, a: LateAction)
  {
    (a.Append? || a.Finishing?) && w.request.responseSerializers != []
  }

  lemma AppendServes(w: Late, before: seq<Run>, serializer: nat)
    requires LateInv(w, before) && w.request.responseSerializers == []
    ensures LateInv(LateNext(w, Append(serializer)), before)
  {
    var w' := LateNext(w, Append(serializer));
    assert Runs(w'.appended, |w.appended|, w.attempt) == Runs(w.appended, |w.appended|, w.attempt);
  }

  lemma EndedDrains(w: Late, before: seq<Run>, k: nat)
    requires LateInv(w, before) && LateEnabled(w, Ended(k))
    ensures LateInv(LateNext(w, Ended(k)), before)
  {
    var last := |w.appended| - 1;
    RunsGrow(w.appended, last, w.attempt);
    assert before + Runs(w.appended, last, w.attempt) + [Run(w.appended[last], w.attempt)] ==
           before + Runs(w.appended, last + 1, w.attempt);
  }

  lemma LateNextKeeps(w: Late, before: seq<Run>, a: LateAction)
    requires LateInv(w, before) && LateEnabled(w, a)
    ensures if Hasty(w, a) then !Single(LateNext(w, a)) else LateInv(LateNext(w, a), before)
  {
    match a {
      case Append(serializer) =>
        if !Hasty(w, a) {
          AppendServes(w, before, serializer);
        }
      case Ended(k) => EndedDrains(w, before, k);
      case _ =>
    }
  }

  ghost predicate AlwaysSingle(w: Late, actions: seq<LateAction>)
    requires LateRun(w, actions)
    decreases |actions|
  {
    Single(w) && (actions == [] || AlwaysSingle(LateNext(w, actions[0]), actions[1..]))
  }

  predicate NeverHasty(w: Late, actions: seq<LateAction>)
    requires LateRun(w, actions)
    decreases |actions|
  {
    actions == [] || (!Hasty(w, actions[0]) && NeverHasty(LateNext(w, actions[0]), actions[1..]))
  }

  /** Over every run from there on, one serializer is due or at work at a time if and only if append and finish are only
      called while nothing appended is unfinished. */
  lemma {:induction false} SingleUnlessHasty(w: Late, before: seq<Run>, actions: seq<LateAction>)
    requires LateInv(w, before) && LateRun(w, actions)
    ensures AlwaysSingle(w, actions) <==> NeverHasty(w, actions)
    decreases |actions|
  {
    if actions == [] {
    } else {
      LateNextKeeps(w, before, actions[0]);
      if !Hasty(w, actions[0]) {
        SingleUnlessHasty(LateNext(w, actions[0]), before, actions[1..]);
      } else if |actions| > 1 {
        assert !AlwaysSingle(LateNext(w, actions[0]), actions[1..]);
      }
    }
  }

  /** Then every late serializer is served: when nothing is due or at work any more, the completion of each has been
      called once, in order, and the request has ended again. */
  lemma {:induction false} LateAreServed(w: Late, before: seq<Run>, actions: seq<LateAction>)
    requires LateInv(w, before) && LateRun(w, actions) && NeverHasty(w, actions)
    ensures var end := LateEnd(w, actions);
            && LateInv(end, before) && end.attempt == w.attempt
            && (end.due == 0 && end.request.dispatched == [] ==>
                  && end.request.called == before + Runs(end.appended, |end.appended|, w.attempt)
                  && (end.request.state.Finished? || end.request.state.Cancelled?))
    decreases |actions|
  {
    if actions == [] {
    } else {
      LateNextKeeps(w, before, actions[0]);
      LateAreServed(LateNext(w, actions[0]), before, actions[1..]);
    }
  }

  /** A late serializer at work when finish comes is dispatched again. */
  lemma HastyDispatchesTwice(w: Late, before: seq<Run>, serializer: nat)
    requires LateInv(w, before) && w.request.state.Finished?
    ensures var s, run := w.request, Run(serializer, w.attempt);
            LateNext(LateNext(LateNext(LateNext(w, Append(serializer)), Process), Change(Cancelled)), Finishing) ==
            Late(State(Cancelled, [serializer], [], true, true, [run, run], s.called), 0, w.appended + [serializer],
                 w.attempt)
  {
    var s, run := w.request, Run(serializer, w.attempt);
    var w1 := LateNext(LateNext(w, Append(serializer)), Process);
    assert w1.request == s.(state := Resumed, responseSerializers := [serializer], dispatched := [run]);
    var w2 := LateNext(w1, Change(Cancelled));
    assert w2.request == w1.request.(state := Cancelled);
  }

  /** Two runs of one serializer call its completion twice. */
  lemma BothAreCalled(s: State, serializer: nat, appended: seq<nat>, attempt: nat)
    requires var run := Run(serializer, attempt);
             s == State(Cancelled, [serializer], [], true, true, [run, run], s.called)
    ensures var run := Run(serializer, attempt);
            LateNext(LateNext(Late(s, 0, appended, attempt), Ended(0)), Ended(0)).request.called ==
            s.called + [run, run]
  {
    var run := Run(serializer, attempt);
    var w := LateNext(Late(s, 0, appended, attempt), Ended(0));
    assert Without(s.dispatched, 0) == [run];
    assert w.request == State(Cancelled, [], [], true, false, [run], s.called + [run]);
    var request := w.request.(dispatched := [], responseSerializerCompletions := [run]);
    assert Without(w.request.dispatched, 0) == [];
    assert LateNext(w, Ended(0)).request == ProcessedNext(request, attempt);
    assert s.called + [run] + [run] == s.called + [run, run];
  }

  /** Otherwise a completion may be called twice: a late serializer is at work when a cancel, finding the task
      completed, calls finish. */
  lemma HastyCallsTwice(w: Late, before: seq<Run>, serializer: nat)
    requires LateInv(w, before) && w.request.state.Finished?
    ensures var run := Run(serializer, w.attempt);
            var working := LateNext(LateNext(w, Append(serializer)), Process);
            var cancelled := LateNext(LateNext(working, Change(Cancelled)), Finishing);
            && |cancelled.request.dispatched| == 2
            && LateNext(LateNext(cancelled, Ended(0)), Ended(0)).request.called == w.request.called + [run, run]
  {
    HastyDispatchesTwice(w, before, serializer);
    var working := LateNext(LateNext(w, Append(serializer)), Process);
    var cancelled := LateNext(LateNext(working, Change(Cancelled)), Finishing);
    BothAreCalled(cancelled.request, serializer, cancelled.appended, w.attempt);
  }
}
