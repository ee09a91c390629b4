/** What each completion handed to AuthenticationInterceptor is called with: once its answer is fixed no interleaving
    changes it, and the end of a refresh fixes the answer of everything that was queued. */
module AuthPromises {
  import opened Bits
  import opened Authentication
  import opened AuthProtocol
  import opened AuthRuns
  import opened AuthAnswers
  import opened Sequences

  // ---------------------------------------------------------------- fixed answers

  /** Working through the block will make this call. */
  ghost predicate Answers(b: Block, call: Call)
  {
    match b
    case CallRefresh(_) => false
    case DrainSuccess(_, retries) => call.answer == Retry && call.completion in retries
    case DrainFailure(adapts, retries, error) =>
      || (call.answer == AdaptFailed(error) && call.completion in OpIds(adapts))
      || (call.answer == DoNotRetryWithError(error) && call.completion in retries)
  }

  ghost predicate InQueue(queue: seq<Block>, call: Call)
  {
    exists b :: b in queue && Answers(b, call)
  }

  /** The completion has been, or is going to be, called with this answer. */
  ghost predicate Fixed(w: World, call: Call)
  {
    call in w.pending || call in w.called || InQueue(w.state.queue, call)
  }

  lemma QueueGrows(queue: seq<Block>, more: seq<Block>, call: Call)
    requires InQueue(queue, call)
    ensures InQueue(queue + more, call)
  {
    var b :| b in queue && Answers(b, call);
    assert b in queue + more;
  }

  /** Adapting a request only appends: to the queue of the interceptor, or to the calls to make. */
  lemma AdaptStepAppends(w: World, window: Option<RefreshWindow>, op: AdaptOperation, requiresRefresh: bool,
                         checked: real, stamped: real) returns (more: seq<Block>)
    ensures var w' := AdaptStep(w, window, op, requiresRefresh, checked, stamped);
            && w'.state.queue == w.state.queue + more && w'.called == w.called
            && (w'.pending == w.pending || (w'.pending != [] && w'.pending[..|w'.pending| - 1] == w.pending))
  {
    var w' := AdaptStep(w, window, op, requiresRefresh, checked, stamped);
    more := w'.state.queue[|w.state.queue|..];
  }

  lemma AdaptStepKeeps(w: World, window: Option<RefreshWindow>, op: AdaptOperation, requiresRefresh: bool,
                       checked: real, stamped: real, call: Call)
    requires Fixed(w, call)
    ensures Fixed(AdaptStep(w, window, op, requiresRefresh, checked, stamped), call)
  {
    var more := AdaptStepAppends(w, window, op, requiresRefresh, checked, stamped);
    if InQueue(w.state.queue, call) {
      QueueGrows(w.state.queue, more, call);
    }
  }

  /** What is left of the head block answers what it answered, but for the call just made. */
  lemma HeadKeeps(queue: seq<Block>, head': Block, call: Call)
    requires queue != [] && InQueue(queue, call) && (Answers(queue[0], call) ==> Answers(head', call))
    ensures InQueue([head'] + queue[1..], call)
  {
    var b :| b in queue && Answers(b, call);
    var queue' := [head'] + queue[1..];
    assert b == queue[0] || b in queue[1..];
    assert head' in queue' && forall x :: x in queue[1..] ==> x in queue';
  }

  lemma RestKeeps(queue: seq<Block>, call: Call)
    requires queue != [] && InQueue(queue, call) && !Answers(queue[0], call)
    ensures InQueue(queue[1..], call)
  {
    var b :| b in queue && Answers(b, call);
    assert b in queue[1..];
  }

  lemma TailIds(adapts: seq<AdaptOperation>)
    requires adapts != []
    ensures OpIds(adapts)[0] == adapts[0].completion && OpIds(adapts)[1..] == OpIds(adapts[1..])
  {
  }

  lemma SuccessKeeps(w: World, window: Option<RefreshWindow>, requiresRefresh: bool, checked: real, stamped: real,
                     call: Call)
    requires Fixed(w, call) && w.state.queue != [] && w.state.queue[0].DrainSuccess?
    ensures Fixed(QueueStep(w, window, requiresRefresh, checked, stamped), call)
  {
    var DrainSuccess(adapts, retries) := w.state.queue[0];
    var rest := w.state.queue[1..];
    if adapts != [] {
      var head' := DrainSuccess(adapts[1..], retries);
      var w1 := WithQueue(w, [head'] + rest);
      if InQueue(w.state.queue, call) {
        HeadKeeps(w.state.queue, head', call);
      }
      AdaptStepKeeps(w1, window, adapts[0], requiresRefresh, checked, stamped, call);
    } else if InQueue(w.state.queue, call) {
      if retries == [] {
        RestKeeps(w.state.queue, call);
      } else if call != Call(retries[0], Retry) {
        HeadKeeps(w.state.queue, DrainSuccess([], retries[1..]), call);
      }
    }
  }

  lemma FailureKeeps(w: World, window: Option<RefreshWindow>, requiresRefresh: bool, checked: real, stamped: real,
                     call: Call)
    requires Fixed(w, call) && w.state.queue != [] && w.state.queue[0].DrainFailure?
    ensures Fixed(QueueStep(w, window, requiresRefresh, checked, stamped), call)
  {
    var DrainFailure(adapts, retries, error) := w.state.queue[0];
    var w' := QueueStep(w, window, requiresRefresh, checked, stamped);
    if InQueue(w.state.queue, call) {
      if adapts != [] {
        TailIds(adapts);
        if call != Call(adapts[0].completion, AdaptFailed(error)) {
          HeadKeeps(w.state.queue, DrainFailure(adapts[1..], retries, error), call);
        }
      } else if retries == [] {
        RestKeeps(w.state.queue, call);
      } else if call != Call(retries[0], DoNotRetryWithError(error)) {
        HeadKeeps(w.state.queue, DrainFailure([], retries[1..], error), call);
      }
    }
  }

  lemma QueueStepKeeps(w: World, window: Option<RefreshWindow>, requiresRefresh: bool, checked: real, stamped: real,
                       call: Call)
    requires Fixed(w, call) && w.state.queue != []
    ensures Fixed(QueueStep(w, window, requiresRefresh, checked, stamped), call)
  {
    match w.state.queue[0]
    case CallRefresh(_) =>
      if InQueue(w.state.queue, call) {
        RestKeeps(w.state.queue, call);
      }
    case DrainSuccess(_, _) => SuccessKeeps(w, window, requiresRefresh, checked, stamped, call);
    case DrainFailure(_, _, _) => FailureKeeps(w, window, requiresRefresh, checked, stamped, call);
  }

  lemma MakeCallKeeps(w: World, window: Option<RefreshWindow>, k: nat, call: Call)
    requires Fixed(w, call) && k < |w.pending|
    ensures Fixed(Next(w, window, MakeCall(k)), call)
  {
    var w' := Next(w, window, MakeCall(k));
    if call in w.pending && call != w.pending[k] {
      var j :| 0 <= j < |w.pending| && w.pending[j] == call;
      assert call == if j < k then w'.pending[j] else w'.pending[j - 1];
    }
  }

  /** Whatever happens next, a fixed answer stays. */
  lemma NextKeepsFixed(w: World, window: Option<RefreshWindow>, a: Action, call: Call)
    requires Fixed(w, call) && Enabled(w, a)
    ensures Fixed(Next(w, window, a), call)
  {
    match a {
      case CallAdapt(op, requiresRefresh, checked, stamped) =>
        AdaptStepKeeps(w, window, op, requiresRefresh, checked, stamped, call);
      case LockRetry(k, checked, stamped) =>
        var queue := Next(w, window, a).state.queue;
        assert queue == w.state.queue + queue[|w.state.queue|..];
        if InQueue(w.state.queue, call) {
          QueueGrows(w.state.queue, queue[|w.state.queue|..], call);
        }
      case MakeCall(k) => MakeCallKeeps(w, window, k, call);
      case RunQueue(requiresRefresh, checked, stamped) =>
        QueueStepKeeps(w, window, requiresRefresh, checked, stamped, call);
      case AnswerRefresh(result) =>
        var queue := Next(w, window, a).state.queue;
        assert queue == w.state.queue + queue[|w.state.queue|..];
        if InQueue(w.state.queue, call) {
          QueueGrows(w.state.queue, queue[|w.state.queue|..], call);
        }
      case _ =>
    }
  }

  // ---------------------------------------------------------------- no other answer is given

  lemma {:induction false} CapturedOnce(queue: seq<Block>, b: Block, id: nat)
    requires b in queue && id in Captured(b)
    ensures id in CapturedBy(queue)
  {
    if b == queue[0] {
    } else {
      CapturedOnce(queue[1..], b, id);
    }
  }

  lemma AnswersCaptured(b: Block, call: Call)
    requires Answers(b, call)
    ensures call.completion in Captured(b)
  {
  }

  lemma IdIn(calls: seq<Call>, call: Call)
    requires call in calls
    ensures call.completion in multiset(CallIds(calls))
  {
    var i :| 0 <= i < |calls| && calls[i] == call;
    assert CallIds(calls)[i] == call.completion;
  }

  /** Each completion is issued once, so what is still to be called has not been called. */
  lemma NotBoth(w: World, id: nat)
    requires Conserved(w)
    ensures id in Uncalled(w) ==> id !in multiset(CallIds(w.called))
  {
    assert Everywhere(w)[id] == Uncalled(w)[id] + multiset(CallIds(w.called))[id];
    assert multiset(w.issued)[id] <= 1;
  }

  /** A completion with a fixed answer is called with no other. */
  lemma FixedIsGiven(w: World, call: Call, made: Call)
    requires Conserved(w) && Fixed(w, call) && made in w.called && made.completion == call.completion
    ensures made == call
  {
    IdIn(w.called, made);
    if call in w.called {
      ConservedCalls(w);
    } else {
      if call in w.pending {
        IdIn(w.pending, call);
      } else {
        var b :| b in w.state.queue && Answers(b, call);
        AnswersCaptured(b, call);
        CapturedOnce(w.state.queue, b, call.completion);
      }
      NotBoth(w, call.completion);
    }
  }

  /** Over every run on from a state in which an answer is fixed: the completion is called with this answer if it is
      called at all, and it has been called once everything is at rest. */
  lemma {:induction false} FixedForGood(w: World, window: Option<RefreshWindow>, actions: seq<Action>, call: Call)
    requires Conserved(w) && Fixed(w, call) && Run(w, window, actions)
    ensures var end := Final(w, window, actions);
            && (forall made :: made in end.called && made.completion == call.completion ==> made == call)
            && (Quiet(end) ==> call in end.called)
    decreases |actions|
  {
    if actions == [] {
      forall made | made in w.called && made.completion == call.completion ensures made == call {
        FixedIsGiven(w, call, made);
      }
    } else {
      NextKeepsFixed(w, window, actions[0], call);
      NextKeepsConserved(w, window, actions[0]);
      FixedForGood(Next(w, window, actions[0]), window, actions[1..], call);
    }
  }

  // ---------------------------------------------------------------- which answers

  /** What a retry queued during a refresh is called with when the refresh has ended. */
  function RetryAnswer(result: RefreshResult): Answer
  {
    match result
    case Success(_) => Retry
    case Failure(error) => DoNotRetryWithError(error)
  }

  lemma EndedFixes(w: World, result: RefreshResult, id: nat)
    ensures var w' := w.(state := Ended(w.state, result));
            && (id in w.state.requestsToRetry ==> Fixed(w', Call(id, RetryAnswer(result))))
            && (id in OpIds(w.state.adaptOperations) && result.Failure? ==>
                  Fixed(w', Call(id, AdaptFailed(result.error))))
  {
    var queue := Ended(w.state, result).queue;
    assert queue[|queue| - 1] in queue;
  }

  /** Over every run after a refresh was answered: each retry queued during it is called with Retry if it succeeded, and
      with its error if it failed, and so is each adapt if it failed. */
  lemma QueuedGetTheAnswer(w: World, window: Option<RefreshWindow>, result: RefreshResult, actions: seq<Action>,
                           made: Call)
    requires Conserved(w) && Enabled(w, AnswerRefresh(result))
    requires Run(Next(w, window, AnswerRefresh(result)), window, actions)
    requires made in Final(Next(w, window, AnswerRefresh(result)), window, actions).called
    ensures made.completion in w.state.requestsToRetry ==> made.answer == RetryAnswer(result)
    ensures made.completion in OpIds(w.state.adaptOperations) && result.Failure? ==>
              made.answer == AdaptFailed(result.error)
  {
    var w', id := Next(w, window, AnswerRefresh(result)), made.completion;
    EndedFixes(w, result, id);
    assert w'.pending == w.pending && w'.called == w.called && w'.state == Ended(w.state, result);
    NextKeepsConserved(w, window, AnswerRefresh(result));
    if id in w.state.requestsToRetry {
      FixedForGood(w', window, actions, Call(id, RetryAnswer(result)));
    }
    if id in OpIds(w.state.adaptOperations) && result.Failure? {
      FixedForGood(w', window, actions, Call(id, AdaptFailed(result.error)));
    }
  }

  /** What a retry is called with that does not wait for a refresh. */
  function AtOnce(credential: Option<nat>, authenticationError: bool, authenticated: bool): Option<Answer>
  {
    if !authenticationError then Some(DoNotRetry)
    else if credential.None? then Some(DoNotRetryWithError(MissingCredential))
    else if !authenticated then Some(Retry)
    else None
  }

  /** Over every run after a retry was asked for: it is refused when the failure was none of authentication, or when
      there is no credential, and granted when its request carried another credential. */
  lemma RetryIsAnswered(w: World, window: Option<RefreshWindow>, a: Action, actions: seq<Action>, made: Call)
    requires Conserved(w) && a.CallRetry? && Enabled(w, a)
    requires Run(Next(w, window, a), window, actions)
    requires made in Final(Next(w, window, a), window, actions).called && made.completion == a.completion
    ensures var answer := AtOnce(w.state.credential, a.authenticationError, a.authenticated);
            answer.Some? ==> made.answer == answer.value
  {
    var answer := AtOnce(w.state.credential, a.authenticationError, a.authenticated);
    NextKeepsConserved(w, window, a);
    if answer.Some? {
      var w' := Next(w, window, a);
      assert w'.pending == w.pending + [Call(a.completion, answer.value)];
      FixedForGood(w', window, actions, Call(a.completion, answer.value));
    }
  }

  /** A refresh that the window forbids fails everything queued, the retry that wanted it included. */
  lemma ExcessiveIsAnswered(w: World, window: Option<RefreshWindow>, a: Action, actions: seq<Action>, made: Call)
    requires Conserved(w) && a.LockRetry? && Enabled(w, a) && !w.state.isRefreshing
    requires Excessive(window, w.state.refreshTimestamps, a.checked)
    requires Run(Next(w, window, a), window, actions)
    requires made in Final(Next(w, window, a), window, actions).called
    ensures made.completion == w.retrying[a.k].completion ==> made.answer == DoNotRetryWithError(ExcessiveRefresh)
  {
    var w' := Next(w, window, a);
    var id := w.retrying[a.k].completion;
    var queued := w.(state := w.state.(requestsToRetry := w.state.requestsToRetry + [id]), retrying := w'.retrying);
    EndedFixes(queued, Failure(ExcessiveRefresh), id);
    assert w' == queued.(state := Ended(queued.state, Failure(ExcessiveRefresh)));
    NextKeepsConserved(w, window, a);
    if made.completion == id {
      FixedForGood(w', window, actions, Call(id, DoNotRetryWithError(ExcessiveRefresh)));
    }
  }

  // ---------------------------------------------------------------- adapts after a success

  /** The adapt waits in the drain of a success, the credential is c, and no refresh is under way or about to be. */
  ghost predicate Granted(w: World, op: AdaptOperation, c: nat)
  {
    && !w.state.isRefreshing && w.state.credential == Some(c) && w.retrying == []
    && exists b :: b in w.state.queue && b.DrainSuccess? && op in b.adapts
  }

  lemma QueueStepGrants(w: World, window: Option<RefreshWindow>, checked: real, stamped: real, op: AdaptOperation,
                        c: nat)
    requires Granted(w, op, c) && w.state.queue != []
    ensures var w' := QueueStep(w, window, false, checked, stamped);
            Granted(w', op, c) || Fixed(w', Call(op.completion, Authenticated(op.urlRequest, c)))
  {
    var w' := QueueStep(w, window, false, checked, stamped);
    var queue := w.state.queue;
    var b :| b in queue && b.DrainSuccess? && op in b.adapts;
    var decides := queue[0].DrainSuccess? && queue[0].adapts != [];
    if b in queue[1..] {
      assert w'.state.queue == queue[1..] || w'.state.queue[1..] == queue[1..];
      assert b in w'.state.queue;
    } else if op == b.adapts[0] {
      assert w'.pending == w.pending + [Call(op.completion, Authenticated(op.urlRequest, c))];
    } else {
      assert op in b.adapts[1..] && w'.state.queue[0] == DrainSuccess(b.adapts[1..], b.retries);
      assert w'.state.queue[0] in w'.state.queue;
    }
  }

  lemma SettlingGrants(w: World, window: Option<RefreshWindow>, a: Action, op: AdaptOperation, c: nat)
    requires SingleFlight(w) && Granted(w, op, c) && Settling(a) && Enabled(w, a)
    ensures var w' := Next(w, window, a);
            Granted(w', op, c) || Fixed(w', Call(op.completion, Authenticated(op.urlRequest, c)))
  {
    match a {
      case RunQueue(_, checked, stamped) => QueueStepGrants(w, window, checked, stamped, op, c);
      case MakeCall(_) =>
    }
  }

  lemma {:induction false} GrantedIsGiven(w: World, window: Option<RefreshWindow>, op: AdaptOperation, c: nat,
                                          actions: seq<Action>)
    requires SingleFlight(w) && Conserved(w) && Granted(w, op, c) && AllSettling(actions) && Run(w, window, actions)
    ensures var end, call := Final(w, window, actions), Call(op.completion, Authenticated(op.urlRequest, c));
            && (forall made :: made in end.called && made.completion == call.completion ==> made == call)
            && (Quiet(end) ==> call in end.called)
    decreases |actions|
  {
    var call := Call(op.completion, Authenticated(op.urlRequest, c));
    if actions == [] {
      GrantedIsUncalled(w, op, c);
    } else {
      var w' := Next(w, window, actions[0]);
      NextKeepsFlight(w, window, actions[0]);
      NextKeepsConserved(w, window, actions[0]);
      SettlingGrants(w, window, actions[0], op, c);
      if Fixed(w', call) {
        FixedForGood(w', window, actions[1..], call);
      } else {
        GrantedIsGiven(w', window, op, c, actions[1..]);
      }
    }
  }

  lemma GrantedIsUncalled(w: World, op: AdaptOperation, c: nat)
    requires Conserved(w) && Granted(w, op, c)
    ensures forall made :: made in w.called ==> made.completion != op.completion
  {
    var b :| b in w.state.queue && b.DrainSuccess? && op in b.adapts;
    var i :| 0 <= i < |b.adapts| && b.adapts[i] == op;
    assert OpIds(b.adapts)[i] == op.completion;
    CapturedOnce(w.state.queue, b, op.completion);
    NotBoth(w, op.completion);
    forall made | made in w.called ensures made.completion != op.completion {
      IdIn(w.called, made);
    }
  }

  /** A refresh succeeds with c while no retry is on its way to the lock: in whatever order the interceptor, its queue
      and the calls then proceed, every adapt queued during the refresh is authenticated with c, as long as c needs no
      refresh itself. */
  lemma QueuedAdaptsUseAnswer(w: World, window: Option<RefreshWindow>, c: nat, actions: seq<Action>,
                              op: AdaptOperation)
    requires SingleFlight(w) && Conserved(w) && Enabled(w, AnswerRefresh(Success(c))) && w.retrying == []
    requires op in w.state.adaptOperations && AllSettling(actions)
    requires Run(Next(w, window, AnswerRefresh(Success(c))), window, actions)
    ensures var end := Final(Next(w, window, AnswerRefresh(Success(c))), window, actions);
            var call := Call(op.completion, Authenticated(op.urlRequest, c));
            && (forall made :: made in end.called && made.completion == call.completion ==> made == call)
            && (Quiet(end) ==> call in end.called)
  {
    var a := AnswerRefresh(Success(c));
    var w' := Next(w, window, a);
    NextKeepsFlight(w, window, a);
    NextKeepsConserved(w, window, a);
    var queue := w'.state.queue;
    var drain := DrainSuccess(w.state.adaptOperations, w.state.requestsToRetry);
    assert queue[|queue| - 1] == drain && drain in queue;
    assert Granted(w', op, c);
    GrantedIsGiven(w', window, op, c, actions);
  }
}
