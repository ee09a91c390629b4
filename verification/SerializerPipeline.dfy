/** Request.swift: the life of a request and the pipeline that runs its response serializers one after another. */
module SerializerPipeline {
  import opened Bits
  import opened Sequences

  datatype Lifecycle = Initialized | Resumed | Suspended | Cancelled | Finished

  /** State.canTransitionTo; the cases are tried in this order. */
  predicate CanTransitionTo(from: Lifecycle, to: Lifecycle)
  {
    if from.Initialized? then true
    else if to.Initialized? || from.Cancelled? || from.Finished? then false
    else if to.Cancelled? || (from.Resumed? && to.Suspended?) || (from.Suspended? && to.Resumed?) then true
    else if from == to then false
    else to.Finished?
  }

  /** A serializer at work in one attempt of the request; also names the completion it produces. */
  datatype Run = Run(serializer: nat, attempt: nat)

  /** MutableState, with what it has handed to the serialization queue and the completions it has called. */
  datatype State = State(
    state: Lifecycle, responseSerializers: seq<nat>, responseSerializerCompletions: seq<Run>,
    processingFinished: bool, isFinishing: bool, dispatched: seq<Run>, called: seq<Run>)

  /** The locked section that ends the processing, and the calls behind it. */
  function Drained(s: State): State
  {
    s.(responseSerializers := [], responseSerializerCompletions := [],
       state := if CanTransitionTo(s.state, Finished) then Finished else s.state,
       processingFinished := true, isFinishing := false,
       called := s.called + s.responseSerializerCompletions)
  }

  /** processNextResponseSerializer; between looking for the next serializer and Drained the lock is not held. */
  function ProcessedNext(s: State, attempt: nat): State
  {
    var index := |s.responseSerializerCompletions|;
    if index < |s.responseSerializers| then
      s.(dispatched := s.dispatched + [Run(s.responseSerializers[index], attempt)])
    else Drained(s)
  }

  /** finish */
  function FinishCalled(s: State, attempt: nat): State
  {
    if s.isFinishing then s else ProcessedNext(s.(isFinishing := true), attempt)
  }

  /** responseSerializerDidComplete */
  function SerializerCompleted(s: State, completion: Run, attempt: nat): State
  {
    ProcessedNext(s.(responseSerializerCompletions := s.responseSerializerCompletions + [completion]), attempt)
  }

  /** reset */
  function WasReset(s: State): State
  {
    s.(isFinishing := false, responseSerializerCompletions := [])
  }

  function Transitioned(s: State, to: Lifecycle): State
  {
    if CanTransitionTo(s.state, to) then s.(state := to) else s
  }

  /** appendResponseSerializer; `more` is whether it also dispatches the processing of the new serializer. */
  function SerializerAppended(s: State, serializer: nat): (r: (State, bool))
  {
    (s.(responseSerializers := s.responseSerializers + [serializer],
        state := if s.state.Finished? then Resumed else s.state),
     s.processingFinished)
  }

  class Request {
    var state: Lifecycle
    var responseSerializers: seq<nat>
    var responseSerializerCompletions: seq<Run>
    var processingFinished: bool
    var isFinishing: bool
    var dispatched: seq<Run>
    var called: seq<Run>

    function Now(): State
      reads this
    {
      State(state, responseSerializers, responseSerializerCompletions, processingFinished, isFinishing, dispatched,
            called)
    }

    constructor ()
      ensures Now() == INITIAL
    {
      state := Initialized;
      responseSerializers, responseSerializerCompletions := [], [];
      processingFinished, isFinishing := false, false;
      dispatched, called := [], [];
    }

    method Finish(attempt: nat)
      modifies this
      ensures Now() == FinishCalled(old(Now()), attempt)
    {
      if isFinishing {
        return;
      }
      isFinishing := true;
      ProcessNextResponseSerializer(attempt);
    }

    method AppendResponseSerializer(serializer: nat) returns (more: bool)
      modifies this
      ensures (Now(), more) == SerializerAppended(old(Now()), serializer)
    {
      responseSerializers := responseSerializers + [serializer];
      if state == Finished {
        state := Resumed;
      }
      more := processingFinished;
    }

    /** Serializer i has run in this attempt: its completion is there. */
    predicate HasCompletion(i: nat)
      reads this
    {
      i < |responseSerializerCompletions|
    }

    /** The first serializer without a completion; none exactly when each has one. */
    method NextResponseSerializer() returns (serializer: Option<nat>)
      ensures serializer.None? <==> forall i :: 0 <= i < |responseSerializers| ==> HasCompletion(i)
      ensures serializer.Some? ==>
                exists i :: 0 <= i < |responseSerializers| && serializer.value == responseSerializers[i] &&
                            !HasCompletion(i) && forall j :: 0 <= j < i ==> HasCompletion(j)
    {
      var index := |responseSerializerCompletions|;
      serializer := None;
      if index < |responseSerializers| {
        serializer := Some(responseSerializers[index]);
        assert !HasCompletion(index) && forall j :: 0 <= j < index ==> HasCompletion(j);
      }
    }

    method ProcessNextResponseSerializer(attempt: nat)
      modifies this
      ensures Now() == ProcessedNext(old(Now()), attempt)
    {
      var next := NextResponseSerializer();
      if next.None? {
        assert |responseSerializers| > 0 ==> HasCompletion(|responseSerializers| - 1);
        var completions := responseSerializerCompletions;
        responseSerializers := [];
        responseSerializerCompletions := [];
        if CanTransitionTo(state, Finished) {
          state := Finished;
        }
        processingFinished := true;
        isFinishing := false;
        for i := 0 to |completions|
          invariant Now() == old(Now()).(responseSerializers := [], responseSerializerCompletions := [],
                                         state :=
                                           if CanTransitionTo(old(state), Finished) then Finished else old(state),
                                         processingFinished := true, isFinishing := false,
                                         called := old(called) + completions[..i])
        {
          assert completions[..i + 1] == completions[..i] + [completions[i]];
          called := called + [completions[i]];
        }
        assert completions[..|completions|] == completions;
        return;
      }
      assert HasCompletion(|responseSerializerCompletions|) == false;
      dispatched := dispatched + [Run(next.value, attempt)];
    }

    method ResponseSerializerDidComplete(completion: Run, attempt: nat)
      modifies this
      ensures Now() == SerializerCompleted(old(Now()), completion, attempt)
    {
      responseSerializerCompletions := responseSerializerCompletions + [completion];
      ProcessNextResponseSerializer(attempt);
    }

    method Reset()
      modifies this
      ensures Now() == WasReset(old(Now()))
    {
      isFinishing := false;
      responseSerializerCompletions := [];
    }

    /** The transition made by cancel, suspend and resume. */
    method TransitionTo(to: Lifecycle)
      modifies this
      ensures Now() == Transitioned(old(Now()), to)
    {
      if !CanTransitionTo(state, to) {
        return;
      }
      state := to;
    }
  }

  const INITIAL: State := State(Initialized, [], [], false, false, [], [])

  // ---------------------------------------------------------------- the pipeline under its environment

  /** `resets` are retries that were decided and have not yet reset the request; `registered` are all serializers. */
  datatype World = World(request: State, attempt: nat, resets: nat, registered: seq<nat>)

  /** Complete(k) and Retry(k): how the k-th dispatched serializer ends. */
  datatype Action =
    | Register(serializer: nat) | CallFinish | Transition(to: Lifecycle) | Complete(k: nat) | Retry(k: nat) | Reset

  /** Serializers are registered before the completions are called; only cancel, suspend and resume change the
      lifecycle. */
  predicate Enabled(w: World, a: Action)
  {
    match a
    case Register(_) => !w.request.processingFinished
    case CallFinish => true
    case Transition(to) => to.Cancelled? || to.Suspended? || to.Resumed?
    case Complete(k) => k < |w.request.dispatched|
    case Retry(k) => k < |w.request.dispatched|
    case Reset => w.resets > 0
  }

  function Next(w: World, a: Action): World
    requires Enabled(w, a)
  {
    match a
    case Register(serializer) =>
      w.(request := SerializerAppended(w.request, serializer).0, registered := w.registered + [serializer])
    case CallFinish => w.(request := FinishCalled(w.request, w.attempt))
    case Transition(to) => w.(request := Transitioned(w.request, to))
    case Complete(k) =>
      w.(request := SerializerCompleted(w.request.(dispatched := Without(w.request.dispatched, k)),
                                        w.request.dispatched[k], w.attempt))
    case Retry(k) => w.(request := w.request.(dispatched := Without(w.request.dispatched, k)), resets := w.resets + 1)
    case Reset => w.(request := WasReset(w.request), attempt := w.attempt + 1, resets := w.resets - 1)
  }

  predicate Enables(w: World, actions: seq<Action>)
    decreases |actions|
  {
    actions == [] || (Enabled(w, actions[0]) && Enables(Next(w, actions[0]), actions[1..]))
  }

  function Final(w: World, actions: seq<Action>): World
    requires Enables(w, actions)
    decreases |actions|
  {
    if actions == [] then w else Final(Next(w, actions[0]), actions[1..])
  }

  /** The first n serializers, as runs of one attempt. */
  function Runs(serializers: seq<nat>, n: nat, attempt: nat): (runs: seq<Run>)
    requires n <= |serializers|
    ensures |runs| == n
  {
    seq(n, i requires 0 <= i < n => Run(serializers[i], attempt))
  }

  /** Every completion of one attempt has been called, in the order of registration, and nothing else has. */
  ghost predicate CalledAll(w: World)
  {
    exists attempt: nat :: w.request.called == Runs(w.registered, |w.registered|, attempt)
  }

  ghost predicate Inv(w: World)
  {
    var s := w.request;
    var done := |s.responseSerializerCompletions|;
    if s.processingFinished then
      // drained: nothing is left to run or to call, and the request has ended
      && s.responseSerializers == [] && done == 0 && s.dispatched == [] && w.resets == 0 && !s.isFinishing
      && CalledAll(w) && (s.state.Finished? || s.state.Cancelled?)
    else
      && !s.state.Finished?
      && s.responseSerializers == w.registered
      && s.called == []
      && done <= |w.registered|
      && s.responseSerializerCompletions == Runs(w.registered, done, w.attempt)
      && (if s.isFinishing then
            // one serializer is at work, the next in order, or its retry is on the way
            || (w.resets == 0 && done < |w.registered| && s.dispatched == [Run(w.registered[done], w.attempt)])
            || (w.resets == 1 && s.dispatched == [])
          else w.resets == 0 && done == 0 && s.dispatched == [])
  }

  lemma RunsGrow(serializers: seq<nat>, n: nat, attempt: nat)
    requires n < |serializers|
    ensures Runs(serializers, n + 1, attempt) == Runs(serializers, n, attempt) + [Run(serializers[n], attempt)]
  {
  }

  /** Processing the next serializer, with none at work, dispatches exactly the next one or calls everything. */
  lemma ProcessingKeepsInv(w: World, n: nat)
    requires n <= |w.registered| && w.resets == 0 && w.request.isFinishing && !w.request.processingFinished
    requires w.request.responseSerializers == w.registered && w.request.called == [] && w.request.dispatched == []
    requires !w.request.state.Finished?
    requires w.request.responseSerializerCompletions == Runs(w.registered, n, w.attempt)
    ensures Inv(w.(request := ProcessedNext(w.request, w.attempt)))
  {
    if n == |w.registered| {
      assert ProcessedNext(w.request, w.attempt).called == Runs(w.registered, |w.registered|, w.attempt);
    }
  }

  lemma FinishKeepsInv(w: World)
    requires Inv(w)
    ensures Inv(w.(request := FinishCalled(w.request, w.attempt)))
  {
    if !w.request.isFinishing {
      if w.request.processingFinished {
        // nothing is registered any more, so nothing is called
        assert FinishCalled(w.request, w.attempt).called == w.request.called;
      } else {
        ProcessingKeepsInv(w.(request := w.request.(isFinishing := true)), 0);
      }
    }
  }

  lemma CompleteKeepsInv(w: World, k: nat)
    requires Inv(w) && Enabled(w, Complete(k))
    ensures Inv(Next(w, Complete(k)))
  {
    var s := w.request;
    var done := |s.responseSerializerCompletions|;
    var completion := s.dispatched[k];
    var request := s.(dispatched := Without(s.dispatched, k),
                      responseSerializerCompletions := s.responseSerializerCompletions + [completion]);
    RunsGrow(w.registered, done, w.attempt);
    ProcessingKeepsInv(w.(request := request), done + 1);
  }

  lemma NextKeepsInv(w: World, a: Action)
    requires Inv(w) && Enabled(w, a)
    ensures Inv(Next(w, a))
  {
    match a {
      case CallFinish => FinishKeepsInv(w);
      case Complete(k) => CompleteKeepsInv(w, k);
      case _ =>
    }
  }

  lemma {:induction false} RunsKeepInv(w: World, actions: seq<Action>)
    requires Inv(w) && Enables(w, actions)
    ensures Inv(Final(w, actions))
    decreases |actions|
  {
    if actions == [] {
    } else {
      NextKeepsInv(w, actions[0]);
      RunsKeepInv(Next(w, actions[0]), actions[1..]);
    }
  }

  const START: World := World(INITIAL, 0, 0, [])

  /** Over every run at most one serializer is at work, and either no completion has been called yet, or exactly the
      completions of all serializers of one attempt have, each once and in the order of registration. A request whose
      completions have been called is finished, or cancelled. */
  lemma OneAtATime(actions: seq<Action>)
    requires Enables(START, actions)
    ensures var w := Final(START, actions);
            && |w.request.dispatched| <= 1
            && (w.request.called == [] || (CalledAll(w) && w.request.dispatched == []))
            && (w.request.processingFinished ==> w.request.state.Finished? || w.request.state.Cancelled?)
            && (w.request.state.Finished? ==> w.request.processingFinished)
  {
    RunsKeepInv(START, actions);
  }

  /** Once the completions have been called, no further action calls another, whatever is still asked of the request. */
  lemma {:induction false} CalledForGood(w: World, actions: seq<Action>)
    requires Inv(w) && w.request.processingFinished && Enables(w, actions)
    ensures Final(w, actions).request.called == w.request.called
    decreases |actions|
  {
    if actions == [] {
    } else {
      NextKeepsInv(w, actions[0]);
      CalledForGood(Next(w, actions[0]), actions[1..]);
    }
  }

  predicate OneWay(from: Lifecycle, to: Lifecycle)
  {
    && (from.Cancelled? || from.Finished? ==> to == from)
    && (!from.Initialized? ==> !to.Initialized?)
  }

  lemma ProcessingIsOneWay(s: State, attempt: nat)
    ensures OneWay(s.state, ProcessedNext(s, attempt).state)
  {
  }

  lemma StepIsOneWay(w: World, a: Action)
    requires Inv(w) && Enabled(w, a)
    ensures OneWay(w.request.state, Next(w, a).request.state)
  {
    match a {
      case Register(_) => assert !w.request.state.Finished?;
      case CallFinish => ProcessingIsOneWay(w.request.(isFinishing := true), w.attempt);
      case Complete(k) =>
        var s := w.request.(dispatched := Without(w.request.dispatched, k));
        var completions := s.responseSerializerCompletions + [w.request.dispatched[k]];
        ProcessingIsOneWay(s.(responseSerializerCompletions := completions), w.attempt);
      case _ =>
    }
  }

  /** Cancelled is never left, nor is Finished under these actions, and Initialized is never entered again. */
  lemma {:induction false} LifecycleIsOneWay(w: World, actions: seq<Action>)
    requires Inv(w) && Enables(w, actions)
    ensures OneWay(w.request.state, Final(w, actions).request.state)
    decreases |actions|
  {
    if actions == [] {
    } else {
      NextKeepsInv(w, actions[0]);
      StepIsOneWay(w, actions[0]);
      LifecycleIsOneWay(Next(w, actions[0]), actions[1..]);
    }
  }

  /** cancel takes effect unless the request has finished, and resuming undoes a suspension. */
  lemma TransitionsAct(s: State)
    ensures Transitioned(s, Cancelled).state == if s.state.Finished? then Finished else Cancelled
    ensures s.state.Resumed? ==> Transitioned(Transitioned(s, Suspended), Resumed) == s
  {
  }

  /** cancel was called before the completions were. */
  predicate CancelledInTime(w: World, actions: seq<Action>)
    requires Enables(w, actions)
    decreases |actions|
  {
    actions != [] &&
    ((actions[0] == Transition(Cancelled) && !w.request.processingFinished) ||
     CancelledInTime(Next(w, actions[0]), actions[1..]))
  }

  /** What the last call of cancel, suspend or resume asked for. */
  function LastAsked(actions: seq<Action>, otherwise: Lifecycle): Lifecycle
  {
    if actions == [] then otherwise
    else LastAsked(actions[1..], if actions[0].Transition? then actions[0].to else otherwise)
  }

  /** A request whose completions have been called stays as it ended. */
  lemma {:induction false} EndedForGood(w: World, actions: seq<Action>)
    requires Inv(w) && w.request.processingFinished && Enables(w, actions)
    ensures Final(w, actions).request.processingFinished && Final(w, actions).request.state == w.request.state
    ensures !CancelledInTime(w, actions)
    decreases |actions|
  {
    if actions == [] {
    } else {
      NextKeepsInv(w, actions[0]);
      StepIsOneWay(w, actions[0]);
      EndedForGood(Next(w, actions[0]), actions[1..]);
    }
  }

  lemma ProcessingFollows(s: State, attempt: nat)
    requires !s.processingFinished && !s.state.Finished? && !s.state.Cancelled?
    ensures var s' := ProcessedNext(s, attempt);
            s'.state == if s'.processingFinished then Finished else s.state
  {
  }

  /** A step that neither cancels the request nor calls its completions leaves it as it was last asked to be. */
  lemma StepFollows(w: World, a: Action)
    requires Inv(w) && Enabled(w, a) && !w.request.processingFinished && !w.request.state.Cancelled?
    ensures var s := Next(w, a).request;
            s.state == if a == Transition(Cancelled) then Cancelled
                       else if s.processingFinished then Finished
                       else LastAsked([a], w.request.state)
  {
    assert LastAsked([a], w.request.state) == if a.Transition? then a.to else w.request.state;
    match a {
      case CallFinish =>
        if !w.request.isFinishing {
          ProcessingFollows(w.request.(isFinishing := true), w.attempt);
        }
      case Complete(k) =>
        var s := w.request.(dispatched := Without(w.request.dispatched, k));
        var completions := s.responseSerializerCompletions + [w.request.dispatched[k]];
        ProcessingFollows(s.(responseSerializerCompletions := completions), w.attempt);
      case _ =>
    }
  }

  /** The lifecycle over every run, from what was asked of the request: cancelled if cancel came before the completions
      were called, otherwise finished once they have been called, and until then as the last suspend or resume left
      it. */
  lemma {:induction false} LifecycleFollows(w: World, actions: seq<Action>)
    requires Inv(w) && !w.request.processingFinished && !w.request.state.Cancelled? && Enables(w, actions)
    ensures var end := Final(w, actions).request;
            end.state == if CancelledInTime(w, actions) then Cancelled
                         else if end.processingFinished then Finished
                         else LastAsked(actions, w.request.state)
    decreases |actions|
  {
    if actions == [] {
    } else {
      var w' := Next(w, actions[0]);
      NextKeepsInv(w, actions[0]);
      StepFollows(w, actions[0]);
      if w'.request.state.Cancelled? {
        LifecycleIsOneWay(w', actions[1..]);
      } else if w'.request.processingFinished {
        EndedForGood(w', actions[1..]);
      } else {
        LifecycleFollows(w', actions[1..]);
      }
    }
  }

  /** The rule about resets is needed: one that comes while a serializer is at work lets the next finish start
      another. */
  lemma StrayResetStartsAnother(w: World)
    requires Inv(w) && w.request.isFinishing && w.request.dispatched != []
    ensures |FinishCalled(WasReset(w.request), w.attempt + 1).dispatched| == 2
  {
    assert |w.registered| > 0;
  }

  /** So is the one that looking for the next serializer and ending the processing go together: a serializer appended in
      between is dropped, and its completion is not among those called. Nothing is dispatched for it. */
  lemma AppendedInBetweenIsLost(s: State, serializer: nat)
    requires |s.responseSerializerCompletions| >= |s.responseSerializers| && !s.processingFinished
    ensures var (between, more) := SerializerAppended(s, serializer);
            && !more && Drained(between).responseSerializers == [] && Drained(between).dispatched == s.dispatched
            && Drained(between).called == Drained(s).called
    ensures var appended := SerializerAppended(s, serializer).0;
            |s.responseSerializerCompletions| == |s.responseSerializers| ==>
              forall attempt: nat :: ProcessedNext(appended, attempt).dispatched ==
                                     s.dispatched + [Run(serializer, attempt)]
  {
  }

  // ---------------------------------------------------------------- every run finishes

  /** The action does work that is due: start the serializers, end one, or reset for an attempt already decided on. */
  predicate Settles(w: World, a: Action)
  {
    && Enabled(w, a)
    && match a
       case CallFinish => !w.request.isFinishing && !w.request.processingFinished
       case Complete(_) => true
       case Reset => true
       case _ => false
  }

  /** Nothing is registered any more, and no serializer asks for another attempt. */
  predicate NoRetries(actions: seq<Action>)
  {
    forall i :: 0 <= i < |actions| ==> !actions[i].Retry? && !actions[i].Register?
  }

  /** How many settling actions are still due: a reset, a finish, and one for each serializer without a completion. */
  function Due(w: World): nat
    requires Inv(w)
  {
    if w.request.processingFinished then 0
    else if !w.request.isFinishing then |w.registered| + 1
    else if w.resets > 0 then |w.registered| + 2
    else |w.registered| - |w.request.responseSerializerCompletions|
  }

  lemma CompleteIsOneLess(w: World, k: nat)
    requires Inv(w) && Enabled(w, Complete(k))
    ensures Inv(Next(w, Complete(k))) && Due(Next(w, Complete(k))) == Due(w) - 1
  {
    CompleteKeepsInv(w, k);
  }

  lemma FinishIsOneLess(w: World)
    requires Inv(w)
    ensures Inv(Next(w, CallFinish)) && Next(w, CallFinish).registered == w.registered
    ensures Due(Next(w, CallFinish)) == if Settles(w, CallFinish) then Due(w) - 1 else Due(w)
  {
    FinishKeepsInv(w);
  }

  /** Each settling action is one of those due; cancelling, suspending, resuming and a redundant finish change
      nothing. */
  lemma StepIsDue(w: World, a: Action)
    requires Inv(w) && Enabled(w, a) && !a.Retry? && !a.Register?
    ensures Inv(Next(w, a)) && Next(w, a).registered == w.registered
    ensures Due(Next(w, a)) == if Settles(w, a) then Due(w) - 1 else Due(w)
  {
    match a {
      case CallFinish => FinishIsOneLess(w);
      case Complete(k) => CompleteIsOneLess(w, k);
      case _ =>
    }
  }

  /** The number of settling actions in a run. */
  function Settlings(w: World, actions: seq<Action>): nat
    requires Enables(w, actions)
    decreases |actions|
  {
    if actions == [] then 0
    else (if Settles(w, actions[0]) then 1 else 0) + Settlings(Next(w, actions[0]), actions[1..])
  }

  /** However a run without retries interleaves, the settling actions taken and those still due make up those due at
      first: no run has more of them. */
  lemma {:induction false} SettlingsAreDue(w: World, actions: seq<Action>)
    requires Inv(w) && Enables(w, actions) && NoRetries(actions)
    ensures Inv(Final(w, actions)) && Final(w, actions).registered == w.registered
    ensures Settlings(w, actions) + Due(Final(w, actions)) == Due(w)
    decreases |actions|
  {
    if actions == [] {
    } else {
      StepIsDue(w, actions[0]);
      SettlingsAreDue(Next(w, actions[0]), actions[1..]);
    }
  }

  /** A settling action is possible exactly while something is due. */
  lemma DueIsPossible(w: World)
    requires Inv(w)
    ensures Due(w) == 0 <==> forall a :: !Settles(w, a)
  {
    if Due(w) > 0 {
      assert Settles(w, if !w.request.isFinishing then CallFinish else if w.resets > 0 then Reset else Complete(0));
    }
  }

  /** Every run without retries that goes on until no settling action is possible has called the completion of each
      serializer registered, in order, has taken exactly the settling actions that were due, and leaves the request
      finished, or cancelled if it was cancelled before. */
  lemma EverySettlingFinishes(w: World, actions: seq<Action>)
    requires Inv(w) && Enables(w, actions) && NoRetries(actions)
    requires forall a :: !Settles(Final(w, actions), a)
    ensures var end := Final(w, actions);
            && end.registered == w.registered && CalledAll(end) && Settlings(w, actions) == Due(w)
            && end.request.processingFinished && (end.request.state.Finished? || end.request.state.Cancelled?)
  {
    SettlingsAreDue(w, actions);
    DueIsPossible(Final(w, actions));
  }
}
