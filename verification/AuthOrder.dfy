/** AuthenticationInterceptor serves what it has queued in the order in which it came. */
module AuthOrder {
  import opened Bits
  import opened Authentication
  import opened AuthProtocol

  // ---------------------------------------------------------------- the lines

  function RetriesOf(b: Block): seq<nat>
  {
    if b.CallRefresh? then [] else b.retries
  }

  function AdaptsOf(b: Block): seq<AdaptOperation>
  {
    if b.CallRefresh? then [] else b.adapts
  }

  function RetriesIn(queue: seq<Block>): seq<nat>
  {
    if queue == [] then [] else RetriesOf(queue[0]) + RetriesIn(queue[1..])
  }

  function AdaptsIn(queue: seq<Block>): seq<AdaptOperation>
  {
    if queue == [] then [] else AdaptsOf(queue[0]) + AdaptsIn(queue[1..])
  }

  /** The retries that wait for their answer, the next one first: those in the drains, then those in the queue. */
  function RetryLine(s: State): seq<nat>
  {
    RetriesIn(s.queue) + s.requestsToRetry
  }

  function AdaptLine(s: State): seq<AdaptOperation>
  {
    AdaptsIn(s.queue) + s.adaptOperations
  }

  lemma Associates<T>(a: seq<T>, b: seq<T>, c: seq<T>)
    ensures a + (b + c) == (a + b) + c
  {
  }

  lemma {:induction false} RetriesAppend(queue: seq<Block>, b: Block)
    ensures RetriesIn(queue + [b]) == RetriesIn(queue) + RetriesOf(b)
  {
    if queue == [] {
      assert queue + [b] == [b];
    } else {
      assert (queue + [b])[1..] == queue[1..] + [b];
      RetriesAppend(queue[1..], b);
      Associates(RetriesOf(queue[0]), RetriesIn(queue[1..]), RetriesOf(b));
    }
  }

  lemma {:induction false} AdaptsAppend(queue: seq<Block>, b: Block)
    ensures AdaptsIn(queue + [b]) == AdaptsIn(queue) + AdaptsOf(b)
  {
    if queue == [] {
      assert queue + [b] == [b];
    } else {
      assert (queue + [b])[1..] == queue[1..] + [b];
      AdaptsAppend(queue[1..], b);
      Associates(AdaptsOf(queue[0]), AdaptsIn(queue[1..]), AdaptsOf(b));
    }
  }

  lemma BlockAppends(queue: seq<Block>, b: Block)
    ensures RetriesIn(queue + [b]) == RetriesIn(queue) + RetriesOf(b)
    ensures AdaptsIn(queue + [b]) == AdaptsIn(queue) + AdaptsOf(b)
  {
    RetriesAppend(queue, b);
    AdaptsAppend(queue, b);
  }

  /** Ending a refresh moves both lines into a drain and leaves them as they are. */
  lemma EndedLines(s: State, result: RefreshResult)
    ensures RetryLine(Ended(s, result)) == RetryLine(s) && AdaptLine(Ended(s, result)) == AdaptLine(s)
  {
    BlockAppends(s.queue, Ended(s, result).queue[|s.queue|]);
  }

  lemma WantedLines(s: State, window: Option<RefreshWindow>, credential: nat, checked: real, stamped: real)
    ensures var s' := Wanted(s, window, credential, checked, stamped);
            RetryLine(s') == RetryLine(s) && AdaptLine(s') == AdaptLine(s)
  {
    if Excessive(window, s.refreshTimestamps, checked) {
      EndedLines(s, Failure(ExcessiveRefresh));
    } else {
      BlockAppends(s.queue, CallRefresh(credential));
    }
  }

  // ---------------------------------------------------------------- joining and being served

  /** The adapt the step works on. */
  function AdaptOf(w: World, a: Action): Option<AdaptOperation>
    requires Enabled(w, a)
  {
    if a.CallAdapt? then Some(a.op)
    else if a.RunQueue? && w.state.queue[0].DrainSuccess? && w.state.queue[0].adapts != []
    then Some(w.state.queue[0].adapts[0])
    else None
  }

  /** The adapt that joins the line: the one the step works on, when it is deferred. */
  function AdaptJoins(w: World, a: Action): seq<AdaptOperation>
    requires Enabled(w, a)
  {
    if AdaptOf(w, a).Some? && AdaptVerdict(w.state, a.requiresRefresh).AdaptDeferred? then [AdaptOf(w, a).value] else []
  }

  /** The adapt that leaves it: the first of the drain at the head of the queue. */
  function AdaptServed(w: World, a: Action): seq<AdaptOperation>
    requires Enabled(w, a)
  {
    if a.RunQueue? && !w.state.queue[0].CallRefresh? && w.state.queue[0].adapts != []
    then [w.state.queue[0].adapts[0]] else []
  }

  function RetryJoins(w: World, a: Action): seq<nat>
    requires Enabled(w, a)
  {
    if a.LockRetry? then [w.retrying[a.k].completion] else []
  }

  /** The retry whose completion a drain calls in this step. */
  function RetryServed(w: World, window: Option<RefreshWindow>, a: Action): seq<nat>
    requires Enabled(w, a)
  {
    var w' := Next(w, window, a);
    if a.RunQueue? && AdaptServed(w, a) == [] && |w'.called| > |w.called|
    then [w'.called[|w'.called| - 1].completion] else []
  }

  lemma AdaptStepLines(w: World, window: Option<RefreshWindow>, op: AdaptOperation, requiresRefresh: bool,
                       checked: real, stamped: real)
    ensures var s' := AdaptStep(w, window, op, requiresRefresh, checked, stamped).state;
            && RetryLine(s') == RetryLine(w.state)
            && AdaptLine(s') ==
               AdaptLine(w.state) + if AdaptVerdict(w.state, requiresRefresh).AdaptDeferred? then [op] else []
  {
    var queued := w.state.(adaptOperations := w.state.adaptOperations + [op]);
    assert AdaptLine(queued) == AdaptLine(w.state) + [op];
    if !w.state.isRefreshing && w.state.credential.Some? && requiresRefresh {
      WantedLines(queued, window, w.state.credential.value, checked, stamped);
    }
  }

  lemma LockRetryLines(w: World, window: Option<RefreshWindow>, a: Action)
    requires a.LockRetry? && Enabled(w, a)
    ensures var s' := Next(w, window, a).state;
            RetryLine(s') == RetryLine(w.state) + RetryJoins(w, a) && AdaptLine(s') == AdaptLine(w.state)
  {
    var waiting := w.retrying[a.k];
    var queued := w.state.(requestsToRetry := w.state.requestsToRetry + [waiting.completion]);
    assert RetryLine(queued) == RetryLine(w.state) + [waiting.completion];
    if !w.state.isRefreshing {
      WantedLines(queued, window, waiting.credential, a.checked, a.stamped);
    }
  }

  /** Replacing the head block by what is left of it takes from the front of the lines. */
  lemma HeadLines(w: World, head': Block, adapts: seq<AdaptOperation>, retries: seq<nat>)
    requires w.state.queue != [] && !w.state.queue[0].CallRefresh? && !head'.CallRefresh?
    requires w.state.queue[0].adapts == adapts + head'.adapts && w.state.queue[0].retries == retries + head'.retries
    ensures var w' := WithQueue(w, [head'] + w.state.queue[1..]);
            AdaptLine(w.state) == adapts + AdaptLine(w'.state) && RetryLine(w.state) == retries + RetryLine(w'.state)
  {
    assert ([head'] + w.state.queue[1..])[1..] == w.state.queue[1..];
  }

  lemma RestLines(w: World)
    requires w.state.queue != []
    requires !w.state.queue[0].CallRefresh? ==> w.state.queue[0].adapts == [] && w.state.queue[0].retries == []
    ensures var w' := WithQueue(w, w.state.queue[1..]);
            AdaptLine(w.state) == AdaptLine(w'.state) && RetryLine(w.state) == RetryLine(w'.state)
  {
  }

  /** A drain of a success decides its first adapt, which may have to wait again. */
  lemma DrainAdaptLines(w: World, window: Option<RefreshWindow>, a: Action)
    requires a.RunQueue? && Enabled(w, a) && w.state.queue[0].DrainSuccess? && w.state.queue[0].adapts != []
    ensures var s' := Next(w, window, a).state;
            && AdaptLine(w.state) + AdaptJoins(w, a) == AdaptServed(w, a) + AdaptLine(s')
            && RetryLine(w.state) == RetryLine(s')
  {
    var DrainSuccess(adapts, retries) := w.state.queue[0];
    var w1 := WithQueue(w, [DrainSuccess(adapts[1..], retries)] + w.state.queue[1..]);
    assert adapts == [adapts[0]] + adapts[1..] && retries == [] + retries;
    HeadLines(w, DrainSuccess(adapts[1..], retries), [adapts[0]], []);
    AdaptStepLines(w1, window, adapts[0], a.requiresRefresh, a.checked, a.stamped);
    var s' := Next(w, window, a).state;
    assert AdaptLine(s') == AdaptLine(w1.state) + AdaptJoins(w, a);
  }

  lemma SuccessLines(w: World, window: Option<RefreshWindow>, a: Action)
    requires a.RunQueue? && Enabled(w, a) && w.state.queue[0].DrainSuccess?
    ensures var s' := Next(w, window, a).state;
            && AdaptLine(w.state) + AdaptJoins(w, a) == AdaptServed(w, a) + AdaptLine(s')
            && RetryLine(w.state) == RetryServed(w, window, a) + RetryLine(s')
  {
    var DrainSuccess(adapts, retries) := w.state.queue[0];
    if adapts != [] {
      DrainAdaptLines(w, window, a);
    } else if retries != [] {
      assert retries == [retries[0]] + retries[1..];
      HeadLines(w, DrainSuccess([], retries[1..]), [], [retries[0]]);
    } else {
      RestLines(w);
    }
  }

  lemma FailureLines(w: World, window: Option<RefreshWindow>, a: Action)
    requires a.RunQueue? && Enabled(w, a) && w.state.queue[0].DrainFailure?
    ensures var s' := Next(w, window, a).state;
            && AdaptLine(w.state) + AdaptJoins(w, a) == AdaptServed(w, a) + AdaptLine(s')
            && RetryLine(w.state) == RetryServed(w, window, a) + RetryLine(s')
  {
    var DrainFailure(adapts, retries, error) := w.state.queue[0];
    if adapts != [] {
      assert adapts == [adapts[0]] + adapts[1..] && retries == [] + retries;
      HeadLines(w, DrainFailure(adapts[1..], retries, error), [adapts[0]], []);
    } else if retries != [] {
      assert retries == [retries[0]] + retries[1..];
      HeadLines(w, DrainFailure([], retries[1..], error), [], [retries[0]]);
    } else {
      RestLines(w);
    }
  }

  lemma QueueStepLines(w: World, window: Option<RefreshWindow>, a: Action)
    requires a.RunQueue? && Enabled(w, a)
    ensures var s' := Next(w, window, a).state;
            && AdaptLine(w.state) + AdaptJoins(w, a) == AdaptServed(w, a) + AdaptLine(s')
            && RetryLine(w.state) == RetryServed(w, window, a) + RetryLine(s')
  {
    match w.state.queue[0]
    case CallRefresh(_) => RestLines(w);
    case DrainSuccess(_, _) => SuccessLines(w, window, a);
    case DrainFailure(_, _, _) => FailureLines(w, window, a);
  }

  /** Every step keeps both lines: who joins goes to the end, who is served comes from the front. */
  lemma NextKeepsLines(w: World, window: Option<RefreshWindow>, a: Action)
    requires Enabled(w, a)
    ensures var s' := Next(w, window, a).state;
            && AdaptLine(w.state) + AdaptJoins(w, a) == AdaptServed(w, a) + AdaptLine(s')
            && RetryLine(w.state) + RetryJoins(w, a) == RetryServed(w, window, a) + RetryLine(s')
  {
    match a {
      case CallAdapt(op, requiresRefresh, checked, stamped) =>
        AdaptStepLines(w, window, op, requiresRefresh, checked, stamped);
      case LockRetry(_, _, _) => LockRetryLines(w, window, a);
      case RunQueue(_, _, _) => QueueStepLines(w, window, a);
      case AnswerRefresh(result) => EndedLines(w.state, result);
      case _ =>
    }
  }

  // ---------------------------------------------------------------- over a run

  function RetriesJoined(w: World, window: Option<RefreshWindow>, actions: seq<Action>): seq<nat>
    requires Run(w, window, actions)
    decreases |actions|
  {
    if actions == [] then []
    else RetryJoins(w, actions[0]) + RetriesJoined(Next(w, window, actions[0]), window, actions[1..])
  }

  function RetriesServed(w: World, window: Option<RefreshWindow>, actions: seq<Action>): seq<nat>
    requires Run(w, window, actions)
    decreases |actions|
  {
    if actions == [] then []
    else RetryServed(w, window, actions[0]) + RetriesServed(Next(w, window, actions[0]), window, actions[1..])
  }

  function AdaptsJoined(w: World, window: Option<RefreshWindow>, actions: seq<Action>): seq<AdaptOperation>
    requires Run(w, window, actions)
    decreases |actions|
  {
    if actions == [] then []
    else AdaptJoins(w, actions[0]) + AdaptsJoined(Next(w, window, actions[0]), window, actions[1..])
  }

  function AdaptsServed(w: World, window: Option<RefreshWindow>, actions: seq<Action>): seq<AdaptOperation>
    requires Run(w, window, actions)
    decreases |actions|
  {
    if actions == [] then []
    else AdaptServed(w, actions[0]) + AdaptsServed(Next(w, window, actions[0]), window, actions[1..])
  }

  lemma Chains<T>(line: seq<T>, joins: seq<T>, served: seq<T>, line': seq<T>, joined: seq<T>, more: seq<T>, end: seq<T>)
    requires line + joins == served + line' && line' + joined == more + end
    ensures line + (joins + joined) == (served + more) + end
  {
    assert line + (joins + joined) == served + line' + joined;
    assert served + line' + joined == served + (line' + joined);
  }

  /** Over every run the line at first and all who joined it are, in this order, all who were served and the line at
      the end. So retries are answered in the order in which they took the lock, and deferred adapts are decided in the
      order in which they were deferred, whatever refreshes came in between. */
  lemma {:induction false} ServedInOrder(w: World, window: Option<RefreshWindow>, actions: seq<Action>)
    requires Run(w, window, actions)
    ensures RetryLine(w.state) + RetriesJoined(w, window, actions) ==
            RetriesServed(w, window, actions) + RetryLine(Final(w, window, actions).state)
    ensures AdaptLine(w.state) + AdaptsJoined(w, window, actions) ==
            AdaptsServed(w, window, actions) + AdaptLine(Final(w, window, actions).state)
    decreases |actions|
  {
    if actions == [] {
    } else {
      var a, w' := actions[0], Next(w, window, actions[0]);
      NextKeepsLines(w, window, a);
      ServedInOrder(w', window, actions[1..]);
      Chains(RetryLine(w.state), RetryJoins(w, a), RetryServed(w, window, a), RetryLine(w'.state),
             RetriesJoined(w', window, actions[1..]), RetriesServed(w', window, actions[1..]),
             RetryLine(Final(w, window, actions).state));
      Chains(AdaptLine(w.state), AdaptJoins(w, a), AdaptServed(w, a), AdaptLine(w'.state),
             AdaptsJoined(w', window, actions[1..]), AdaptsServed(w', window, actions[1..]),
             AdaptLine(Final(w, window, actions).state));
    }
  }
}
