/** What holds over every run of the authentication protocol, and that every run can be brought to rest. */
module AuthRuns {
  import opened Bits
  import opened Authentication
  import opened RefreshRate
  import opened AuthProtocol
  import opened Sequences

  // ---------------------------------------------------------------- every run

  ghost predicate Inv(w: World, window: Option<RefreshWindow>)
  {
    SingleFlight(w) && Conserved(w) && RateLimited(window, w.state.refreshTimestamps)
  }

  lemma {:induction false} RunsKeepInv(w: World, window: Option<RefreshWindow>, actions: seq<Action>)
    requires Inv(w, window) && Run(w, window, actions)
    ensures Inv(Final(w, window, actions), window)
    decreases |actions|
  {
    if actions == [] {
    } else {
      NextKeepsFlight(w, window, actions[0]);
      NextKeepsConserved(w, window, actions[0]);
      NextKeepsRate(w, window, actions[0]);
      RunsKeepInv(Next(w, window, actions[0]), window, actions[1..]);
    }
  }

  lemma InitialInv(credential: Option<nat>, window: Option<RefreshWindow>)
    ensures Inv(Initial(credential), window)
  {
    assert OpIds([]) == [] && WaitingIds([]) == [] && CallIds([]) == [];
  }

  /** Over every run: one refresh is outstanding exactly while isRefreshing says so, and nothing waits otherwise. */
  lemma OneRefreshAtATime(credential: Option<nat>, window: Option<RefreshWindow>, actions: seq<Action>)
    requires Run(Initial(credential), window, actions)
    ensures SingleFlight(Final(Initial(credential), window, actions))
  {
    InitialInv(credential, window);
    RunsKeepInv(Initial(credential), window, actions);
  }

  /** Over every run: no completion is lost or duplicated, so none is called twice or without having been issued. */
  lemma CalledAtMostOnce(credential: Option<nat>, window: Option<RefreshWindow>, actions: seq<Action>)
    requires Run(Initial(credential), window, actions)
    ensures var w := Final(Initial(credential), window, actions);
            && Conserved(w)
            && (forall i, j :: 0 <= i < j < |w.called| ==> w.called[i].completion != w.called[j].completion)
            && (forall i :: 0 <= i < |w.called| ==> w.called[i].completion in w.issued)
  {
    InitialInv(credential, window);
    RunsKeepInv(Initial(credential), window, actions);
    var w := Final(Initial(credential), window, actions);
    ConservedCalls(w);
  }

  lemma ConservedCalls(w: World)
    requires Conserved(w)
    ensures forall i, j :: 0 <= i < j < |w.called| ==> w.called[i].completion != w.called[j].completion
    ensures forall i :: 0 <= i < |w.called| ==> w.called[i].completion in w.issued
  {
    var ids := CallIds(w.called);
    assert multiset(ids) <= multiset(w.issued);
    forall i | 0 <= i < |ids| ensures w.called[i].completion in w.issued {
      Member(ids, w.issued, i);
    }
    forall i, j | 0 <= i < j < |ids| ensures w.called[i].completion != w.called[j].completion {
      Distinct(ids, w.issued, i, j);
    }
  }

  /** Over every run: no interval of the window's length sees more refreshes start than the maximum. */
  lemma RefreshRateBounded(credential: Option<nat>, window: RefreshWindow, actions: seq<Action>, from: real)
    requires Run(Initial(credential), Some(window), actions)
    ensures Within(Final(Initial(credential), Some(window), actions).state.refreshTimestamps, from,
                   from + window.interval)
            <= if window.maximumAttempts > 0 then window.maximumAttempts else 0
  {
    InitialInv(credential, Some(window));
    RunsKeepInv(Initial(credential), Some(window), actions);
    RateBound(window, Final(Initial(credential), Some(window), actions).state.refreshTimestamps, from);
  }

  // ---------------------------------------------------------------- coming to rest

  /** Nothing is on its way any more. */
  predicate Quiet(w: World)
  {
    w.state.queue == [] && w.unanswered == 0 && w.retrying == [] && w.pending == []
  }

  /** At rest, every completion ever issued has been called. */
  lemma QuietMeansAllCalled(w: World, window: Option<RefreshWindow>)
    requires Inv(w, window) && Quiet(w)
    ensures !w.state.isRefreshing && multiset(CallIds(w.called)) == multiset(w.issued)
  {
    assert OpIds([]) == [] && WaitingIds([]) == [] && CallIds([]) == [];
  }

  /** Done by the interceptor, its queue or the authenticator, not by a caller. */
  predicate Internal(a: Action)
  {
    a.LockRetry? || a.MakeCall? || a.RunQueue? || a.AnswerRefresh?
  }

  function Weight(b: Block): nat
  {
    match b
    case CallRefresh(_) => 1
    case DrainSuccess(adapts, retries) => 1 + |adapts| + |retries|
    case DrainFailure(adapts, retries, _) => 1 + |adapts| + |retries|
  }

  function QueueWeight(queue: seq<Block>): nat
  {
    if queue == [] then 0 else Weight(queue[0]) + QueueWeight(queue[1..])
  }

  function Outstanding(w: World): nat
  {
    CallsIn(w.state.queue) + w.unanswered
  }

  /** As long as credentials need no refresh, working through the queue makes it lighter and starts nothing. */
  lemma QueueShrinks(w: World, window: Option<RefreshWindow>, checked: real, stamped: real)
    requires Enabled(w, RunQueue(false, checked, stamped))
    ensures var w' := Next(w, window, RunQueue(false, checked, stamped));
            && w'.retrying == w.retrying
            && Outstanding(w') == Outstanding(w)
            && QueueWeight(w'.state.queue) < QueueWeight(w.state.queue)
  {
    var w' := Next(w, window, RunQueue(false, checked, stamped));
    var head, rest := w.state.queue[0], w.state.queue[1..];
    if w'.state.queue != rest {
      assert w'.state.queue[1..] == rest;
      assert Weight(w'.state.queue[0]) < Weight(head);
    }
  }

  lemma AnswerEndsFlight(w: World, window: Option<RefreshWindow>, result: RefreshResult)
    requires w.unanswered > 0
    ensures var w' := Next(w, window, AnswerRefresh(result));
            w'.retrying == w.retrying && Outstanding(w') < Outstanding(w)
  {
    EndedCalls(w.state, result);
  }

  lemma InternalKeepsInv(w: World, window: Option<RefreshWindow>, a: Action)
    requires Inv(w, window) && Enabled(w, a) && Internal(a)
    ensures Inv(Next(w, window, a), window) && Next(w, window, a).issued == w.issued
  {
    NextKeepsFlight(w, window, a);
    NextKeepsConserved(w, window, a);
    NextKeepsRate(w, window, a);
    InternalIssuesNothing(w, window, a);
  }

  /** An action of the interceptor, its queue or the authenticator, at which no credential asks to be refreshed
      again. */
  predicate Settling(a: Action)
  {
    Internal(a) && (a.RunQueue? ==> !a.requiresRefresh)
  }

  predicate AllSettling(actions: seq<Action>)
  {
    forall i :: 0 <= i < |actions| ==> Settling(actions[i])
  }

  /** w' is closer to rest: fewer retries before their lock, or fewer refreshes outstanding, or a lighter queue, or
      fewer calls to make, in this order. */
  predicate Closer(w': World, w: World)
  {
    || |w'.retrying| < |w.retrying|
    || (|w'.retrying| == |w.retrying| &&
        (|| Outstanding(w') < Outstanding(w)
         || (Outstanding(w') == Outstanding(w) &&
             (|| QueueWeight(w'.state.queue) < QueueWeight(w.state.queue)
              || (QueueWeight(w'.state.queue) == QueueWeight(w.state.queue) && |w'.pending| < |w.pending|)))))
  }

  /** Whichever settling action comes next, it brings the protocol closer to rest. */
  lemma SettlingIsCloser(w: World, window: Option<RefreshWindow>, a: Action)
    requires Enabled(w, a) && Settling(a)
    ensures Closer(Next(w, window, a), w)
  {
    match a {
      case RunQueue(_, checked, stamped) => QueueShrinks(w, window, checked, stamped);
      case AnswerRefresh(result) => AnswerEndsFlight(w, window, result);
      case _ =>
    }
  }

  /** Where no settling action is possible, everything is at rest. */
  lemma StuckIsQuiet(w: World)
    requires forall a :: Settling(a) ==> !Enabled(w, a)
    ensures Quiet(w)
  {
    assert Settling(LockRetry(0, 0.0, 0.0)) && Settling(RunQueue(false, 0.0, 0.0));
    assert Settling(AnswerRefresh(Success(0))) && Settling(MakeCall(0));
  }

  lemma {:induction false} SettlingKeepsInv(w: World, window: Option<RefreshWindow>, actions: seq<Action>)
    requires Inv(w, window) && AllSettling(actions) && Run(w, window, actions)
    ensures Inv(Final(w, window, actions), window) && Final(w, window, actions).issued == w.issued
    decreases |actions|
  {
    if actions == [] {
    } else {
      InternalKeepsInv(w, window, actions[0]);
      SettlingKeepsInv(Next(w, window, actions[0]), window, actions[1..]);
    }
  }

  /** Every way of settling that goes on for as long as it can ends with each completion called. */
  lemma EverySettlingFinishes(w: World, window: Option<RefreshWindow>, actions: seq<Action>)
    requires Inv(w, window) && AllSettling(actions) && Run(w, window, actions)
    requires forall a :: Settling(a) ==> !Enabled(Final(w, window, actions), a)
    ensures var end := Final(w, window, actions);
            Quiet(end) && end.issued == w.issued && multiset(CallIds(end.called)) == multiset(w.issued)
  {
    SettlingKeepsInv(w, window, actions);
    StuckIsQuiet(Final(w, window, actions));
    QuietMeansAllCalled(Final(w, window, actions), window);
  }

  /** The actions are the ones the schedule proposes from a given place on. */
  ghost predicate Scheduled(schedule: nat -> Action, from: nat, actions: seq<Action>)
  {
    forall k :: 0 <= k < |actions| ==> actions[k] == schedule(from + k)
  }

  /** The actions settle, follow the schedule from there on, and end where its next proposal is not possible. */
  ghost predicate Stops(w: World, window: Option<RefreshWindow>, schedule: nat -> Action, from: nat,
                        actions: seq<Action>)
  {
    && AllSettling(actions) && Run(w, window, actions) && Scheduled(schedule, from, actions)
    && !Enabled(Final(w, window, actions), schedule(from + |actions|))
  }

  /** And none goes on for ever: whatever the schedule proposes next, at some point it is no longer possible. */
  lemma {:induction false} EverySettlingEnds(w: World, window: Option<RefreshWindow>, schedule: nat -> Action,
                                             from: nat)
      returns (actions: seq<Action>)
    requires forall n: nat :: Settling(schedule(n))
    ensures Stops(w, window, schedule, from, actions)
    decreases |w.retrying|, Outstanding(w), QueueWeight(w.state.queue), |w.pending|
  {
    var a := schedule(from);
    if !Enabled(w, a) {
      actions := [];
    } else {
      var w' := Next(w, window, a);
      SettlingIsCloser(w, window, a);
      var more := EverySettlingEnds(w', window, schedule, from + 1);
      actions := OneMore(w, window, schedule, from, w', more);
    }
  }

  lemma OneMore(w: World, window: Option<RefreshWindow>, schedule: nat -> Action, from: nat, w': World,
                more: seq<Action>)
      returns (actions: seq<Action>)
    requires Enabled(w, schedule(from)) && Settling(schedule(from)) && w' == Next(w, window, schedule(from))
    requires Stops(w', window, schedule, from + 1, more)
    ensures Stops(w, window, schedule, from, actions)
  {
    actions := [schedule(from)] + more;
    RunPrepends(w, window, schedule(from), more, actions);
    Follows(schedule, from, more, actions);
    assert from + |actions| == from + 1 + |more|;
  }

  /** A settling action that is possible. */
  function Towards(w: World): Action
  {
    if w.retrying != [] then LockRetry(0, 0.0, 0.0)
    else if w.state.queue != [] then RunQueue(false, 0.0, 0.0)
    else if w.unanswered > 0 then AnswerRefresh(Success(0))
    else MakeCall(0)
  }

  /** So from every state of every run, the interceptor, its queue and an authenticator that answers can finish all the
      work accepted so far, and then each completion has been called. */
  lemma {:induction false} CanFinish(w: World, window: Option<RefreshWindow>) returns (actions: seq<Action>)
    requires Inv(w, window)
    ensures AllSettling(actions) && Run(w, window, actions)
    ensures var end := Final(w, window, actions);
            Quiet(end) && end.issued == w.issued && multiset(CallIds(end.called)) == multiset(w.issued)
    decreases |w.retrying|, Outstanding(w), QueueWeight(w.state.queue), |w.pending|
  {
    if Quiet(w) {
      QuietMeansAllCalled(w, window);
      actions := [];
    } else {
      var a := Towards(w);
      SettlingIsCloser(w, window, a);
      InternalKeepsInv(w, window, a);
      var more := CanFinish(Next(w, window, a), window);
      actions := [a] + more;
      RunPrepends(w, window, a, more, actions);
    }
  }

  lemma RunPrepends(w: World, window: Option<RefreshWindow>, a: Action, more: seq<Action>, actions: seq<Action>)
    requires Enabled(w, a) && Run(Next(w, window, a), window, more) && actions == [a] + more
    requires Settling(a) && AllSettling(more)
    ensures AllSettling(actions)
    ensures Run(w, window, actions) && Final(w, window, actions) == Final(Next(w, window, a), window, more)
  {
    assert actions[0] == a && actions[1..] == more;
  }

  lemma Follows(schedule: nat -> Action, from: nat, more: seq<Action>, actions: seq<Action>)
    requires actions == [schedule(from)] + more && Scheduled(schedule, from + 1, more)
    ensures Scheduled(schedule, from, actions) && from + 1 + |more| == from + |actions|
  {
    forall k | 0 <= k < |actions| ensures actions[k] == schedule(from + k) {
      if k > 0 {
        assert actions[k] == more[k - 1] && from + 1 + (k - 1) == from + k;
      }
    }
  }
}
