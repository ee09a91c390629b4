/** AuthenticationInterceptor.swift as a protocol: callers, the serial queue and the authenticator interleave freely
    between the locked sections. */
module AuthProtocol {
  import opened Bits
  import opened Authentication
  import opened RefreshRate
  import opened Sequences

  /** What a completion handler is called with. */
  datatype Answer =
    | Authenticated(urlRequest: nat, credential: nat)
    | AdaptFailed(error: Error)
    | Retry
    | DoNotRetry
    | DoNotRetryWithError(error: Error)

  datatype Call = Call(completion: nat, answer: Answer)

  /** A retry that has read the credential and not yet taken the lock. */
  datatype Waiting = Waiting(completion: nat, credential: nat)

  /** `unanswered` refreshes are with the authenticator; `pending` calls have been decided and not yet made. `begun`
      are the credentials handed to the authenticator for a refresh so far; `granted` are the credentials it or the
      owner has ever provided, and `refused` the errors it has ever answered. */
  datatype World = World(
    state: State, unanswered: nat, retrying: seq<Waiting>, pending: seq<Call>, called: seq<Call>, issued: set<nat>,
    begun: seq<nat>, granted: set<nat>, refused: set<Error>)

  /** What can happen next, with the choices of the environment: clock readings, requiresRefresh, verdicts. */
  datatype Action =
    | CallAdapt(op: AdaptOperation, requiresRefresh: bool, checked: real, stamped: real)
    | CallRetry(completion: nat, authenticationError: bool, authenticated: bool)
    | LockRetry(k: nat, checked: real, stamped: real)
    | MakeCall(k: nat)
    | RunQueue(requiresRefresh: bool, checked: real, stamped: real)
    | AnswerRefresh(result: RefreshResult)
    | SetCredential(credential: Option<nat>)

  predicate Enabled(w: World, a: Action)
  {
    match a
    case CallAdapt(op, _, checked, stamped) => op.completion !in w.issued && checked <= stamped
    case CallRetry(completion, _, _) => completion !in w.issued
    case LockRetry(k, checked, stamped) => k < |w.retrying| && checked <= stamped
    case MakeCall(k) => k < |w.pending|
    case RunQueue(_, checked, stamped) => w.state.queue != [] && checked <= stamped
    case AnswerRefresh(_) => w.unanswered > 0
    case SetCredential(_) => true
  }

  /** adapt: its locked section, and a call to make when it was not deferred. */
  function AdaptStep(w: World, window: Option<RefreshWindow>, op: AdaptOperation, requiresRefresh: bool, checked: real,
                     stamped: real): World
  {
    var verdict := AdaptVerdict(w.state, requiresRefresh);
    w.(state := Adapted(w.state, window, op, requiresRefresh, checked, stamped),
       pending := match verdict
         case Adapt(credential) => w.pending + [Call(op.completion, Authenticated(op.urlRequest, credential))]
         case DoNotAdapt(error) => w.pending + [Call(op.completion, AdaptFailed(error))]
         case AdaptDeferred => w.pending)
  }

  /** retry up to its locked section. */
  function RetryStep(w: World, completion: nat, authenticationError: bool, authenticated: bool): World
  {
    if !authenticationError then w.(pending := w.pending + [Call(completion, DoNotRetry)])
    else if w.state.credential.None? then
      w.(pending := w.pending + [Call(completion, DoNotRetryWithError(MissingCredential))])
    else if !authenticated then w.(pending := w.pending + [Call(completion, Retry)])
    else w.(retrying := w.retrying + [Waiting(completion, w.state.credential.value)])
  }

  function WithQueue(w: World, queue: seq<Block>): World
  {
    w.(state := w.state.(queue := queue))
  }

  /** The next piece of work of the block at the head of the serial queue. */
  function QueueStep(w: World, window: Option<RefreshWindow>, requiresRefresh: bool, checked: real,
                     stamped: real): World
    requires w.state.queue != []
  {
    var rest := w.state.queue[1..];
    match w.state.queue[0]
    case CallRefresh(credential) =>
      WithQueue(w, rest).(unanswered := w.unanswered + 1, begun := w.begun + [credential])
    case DrainSuccess(adapts, retries) =>
      if adapts != [] then
        AdaptStep(WithQueue(w, [DrainSuccess(adapts[1..], retries)] + rest), window, adapts[0], requiresRefresh,
                  checked, stamped)
      else if retries != [] then
        WithQueue(w, [DrainSuccess([], retries[1..])] + rest).(called := w.called + [Call(retries[0], Retry)])
      else WithQueue(w, rest)
    case DrainFailure(adapts, retries, error) =>
      if adapts != [] then
        WithQueue(w, [DrainFailure(adapts[1..], retries, error)] + rest)
          .(called := w.called + [Call(adapts[0].completion, AdaptFailed(error))])
      else if retries != [] then
        WithQueue(w, [DrainFailure([], retries[1..], error)] + rest)
          .(called := w.called + [Call(retries[0], DoNotRetryWithError(error))])
      else WithQueue(w, rest)
  }

  function Provided(credential: Option<nat>): set<nat>
  {
    if credential.Some? then {credential.value} else {}
  }

  function Next(w: World, window: Option<RefreshWindow>, a: Action): World
    requires Enabled(w, a)
  {
    match a
    case CallAdapt(op, requiresRefresh, checked, stamped) =>
      AdaptStep(w, window, op, requiresRefresh, checked, stamped).(issued := w.issued + {op.completion})
    case CallRetry(completion, authenticationError, authenticated) =>
      RetryStep(w, completion, authenticationError, authenticated).(issued := w.issued + {completion})
    case LockRetry(k, checked, stamped) =>
      var waiting := w.retrying[k];
      w.(state := Retried(w.state, window, waiting.completion, waiting.credential, checked, stamped),
         retrying := Without(w.retrying, k))
    case MakeCall(k) => w.(pending := Without(w.pending, k), called := w.called + [w.pending[k]])
    case RunQueue(requiresRefresh, checked, stamped) => QueueStep(w, window, requiresRefresh, checked, stamped)
    case AnswerRefresh(result) =>
      w.(state := Ended(w.state, result), unanswered := w.unanswered - 1,
         granted := if result.Success? then w.granted + {result.credential} else w.granted,
         refused := if result.Failure? then w.refused + {result.error} else w.refused)
    case SetCredential(credential) =>
      w.(state := w.state.(credential := credential), granted := w.granted + Provided(credential))
  }

  function Initial(credential: Option<nat>): World
  {
    World(State(credential, false, [], [], [], []), 0, [], [], [], {}, [], Provided(credential), {})
  }

  /** Each action is enabled when its turn comes. */
  predicate Run(w: World, window: Option<RefreshWindow>, actions: seq<Action>)
    decreases |actions|
  {
    actions == [] || (Enabled(w, actions[0]) && Run(Next(w, window, actions[0]), window, actions[1..]))
  }

  function Final(w: World, window: Option<RefreshWindow>, actions: seq<Action>): World
    requires Run(w, window, actions)
    decreases |actions|
  {
    if actions == [] then w else Final(Next(w, window, actions[0]), window, actions[1..])
  }

  // ---------------------------------------------------------------- single flight

  /** Refreshes on their way to the authenticator. */
  function CallsIn(queue: seq<Block>): nat
  {
    if queue == [] then 0 else (if queue[0].CallRefresh? then 1 else 0) + CallsIn(queue[1..])
  }

  /** One refresh is outstanding exactly while isRefreshing says so, nothing waits otherwise, and every recorded
      timestamp is that of a refresh begun or on its way. */
  predicate SingleFlight(w: World)
  {
    && CallsIn(w.state.queue) + w.unanswered == (if w.state.isRefreshing then 1 else 0)
    && (!w.state.isRefreshing ==> w.state.adaptOperations == [] && w.state.requestsToRetry == [])
    && |w.state.refreshTimestamps| == |w.begun| + CallsIn(w.state.queue)
  }

  lemma {:induction false} CallsAppend(queue: seq<Block>, b: Block)
    ensures CallsIn(queue + [b]) == CallsIn(queue) + if b.CallRefresh? then 1 else 0
  {
    if queue == [] {
      assert queue + [b] == [b];
    } else {
      assert (queue + [b])[1..] == queue[1..] + [b];
      CallsAppend(queue[1..], b);
    }
  }

  lemma EndedCalls(s: State, result: RefreshResult)
    ensures CallsIn(Ended(s, result).queue) == CallsIn(s.queue)
  {
    CallsAppend(s.queue, Ended(s, result).queue[|s.queue|]);
  }

  /** Asking for a refresh puts one call in the queue, or fails and leaves nothing waiting. */
  lemma WantedCalls(s: State, window: Option<RefreshWindow>, credential: nat, checked: real, stamped: real)
    ensures var s' := Wanted(s, window, credential, checked, stamped);
            && CallsIn(s'.queue) == CallsIn(s.queue) + (if s'.isRefreshing then 1 else 0)
            && |s'.refreshTimestamps| == |s.refreshTimestamps| + (if s'.isRefreshing then 1 else 0)
            && (!s'.isRefreshing ==> s'.adaptOperations == [] && s'.requestsToRetry == [])
  {
    if Excessive(window, s.refreshTimestamps, checked) {
      EndedCalls(s, Failure(ExcessiveRefresh));
    } else {
      CallsAppend(s.queue, CallRefresh(credential));
    }
  }

  lemma AdaptKeepsFlight(w: World, window: Option<RefreshWindow>, op: AdaptOperation, requiresRefresh: bool,
                         checked: real, stamped: real)
    requires SingleFlight(w)
    ensures SingleFlight(AdaptStep(w, window, op, requiresRefresh, checked, stamped))
  {
    if !w.state.isRefreshing && w.state.credential.Some? && requiresRefresh {
      WantedCalls(w.state.(adaptOperations := w.state.adaptOperations + [op]), window, w.state.credential.value,
                  checked, stamped);
    }
  }

  lemma HandOverKeepsFlight(w: World, window: Option<RefreshWindow>, requiresRefresh: bool, checked: real,
                            stamped: real)
    requires SingleFlight(w) && w.state.queue != [] && w.state.queue[0].CallRefresh?
    ensures SingleFlight(QueueStep(w, window, requiresRefresh, checked, stamped))
  {
  }

  lemma DrainKeepsFlight(w: World, queue: seq<Block>)
    requires SingleFlight(w) && w.state.queue != [] && !w.state.queue[0].CallRefresh?
    requires queue == w.state.queue[1..] || (queue != [] && queue[1..] == w.state.queue[1..] && !queue[0].CallRefresh?)
    ensures CallsIn(queue) == CallsIn(w.state.queue)
  {
  }

  lemma QueueKeepsFlight(w: World, window: Option<RefreshWindow>, requiresRefresh: bool, checked: real, stamped: real)
    requires SingleFlight(w) && w.state.queue != []
    ensures SingleFlight(QueueStep(w, window, requiresRefresh, checked, stamped))
  {
    var head, rest := w.state.queue[0], w.state.queue[1..];
    if head.CallRefresh? {
      HandOverKeepsFlight(w, window, requiresRefresh, checked, stamped);
    } else if head.DrainSuccess? && head.adapts != [] {
      var w' := WithQueue(w, [DrainSuccess(head.adapts[1..], head.retries)] + rest);
      DrainKeepsFlight(w, w'.state.queue);
      AdaptKeepsFlight(w', window, head.adapts[0], requiresRefresh, checked, stamped);
    } else {
      DrainKeepsFlight(w, QueueStep(w, window, requiresRefresh, checked, stamped).state.queue);
    }
  }

  lemma NextKeepsFlight(w: World, window: Option<RefreshWindow>, a: Action)
    requires SingleFlight(w) && Enabled(w, a)
    ensures SingleFlight(Next(w, window, a))
  {
    match a {
      case CallAdapt(op, requiresRefresh, checked, stamped) =>
        AdaptKeepsFlight(w, window, op, requiresRefresh, checked, stamped);
      case LockRetry(k, checked, stamped) =>
        if !w.state.isRefreshing {
          var waiting := w.retrying[k];
          WantedCalls(w.state.(requestsToRetry := w.state.requestsToRetry + [waiting.completion]), window,
                      waiting.credential, checked, stamped);
        }
      case RunQueue(requiresRefresh, checked, stamped) =>
        QueueKeepsFlight(w, window, requiresRefresh, checked, stamped);
      case AnswerRefresh(result) =>
        EndedCalls(w.state, result);
      case _ =>
    }
  }

  // ---------------------------------------------------------------- conservation of completions

  function OpIds(ops: seq<AdaptOperation>): (ids: seq<nat>)
    ensures |ids| == |ops|
  {
    seq(|ops|, i requires 0 <= i < |ops| => ops[i].completion)
  }

  function CallIds(calls: seq<Call>): (ids: seq<nat>)
    ensures |ids| == |calls|
  {
    seq(|calls|, i requires 0 <= i < |calls| => calls[i].completion)
  }

  function WaitingIds(waiting: seq<Waiting>): (ids: seq<nat>)
    ensures |ids| == |waiting|
  {
    seq(|waiting|, i requires 0 <= i < |waiting| => waiting[i].completion)
  }

  /** The completions a block has captured. */
  function Captured(b: Block): multiset<nat>
  {
    match b
    case CallRefresh(_) => multiset{}
    case DrainSuccess(adapts, retries) => multiset(OpIds(adapts)) + multiset(retries)
    case DrainFailure(adapts, retries, _) => multiset(OpIds(adapts)) + multiset(retries)
  }

  function CapturedBy(queue: seq<Block>): multiset<nat>
  {
    if queue == [] then multiset{} else Captured(queue[0]) + CapturedBy(queue[1..])
  }

  /** The completions the interceptor holds: queued, or captured by a block. */
  function Held(s: State): multiset<nat>
  {
    multiset(OpIds(s.adaptOperations)) + multiset(s.requestsToRetry) + CapturedBy(s.queue)
  }

  function Uncalled(w: World): multiset<nat>
  {
    Held(w.state) + multiset(WaitingIds(w.retrying)) + multiset(CallIds(w.pending))
  }

  function Everywhere(w: World): multiset<nat>
  {
    Uncalled(w) + multiset(CallIds(w.called))
  }

  /** Every completion issued is in exactly one place. */
  ghost predicate Conserved(w: World)
  {
    multiset(w.issued) == Everywhere(w)
  }

  lemma {:induction false} CapturedAppend(queue: seq<Block>, b: Block)
    ensures CapturedBy(queue + [b]) == CapturedBy(queue) + Captured(b)
  {
    if queue == [] {
      assert queue + [b] == [b];
    } else {
      assert (queue + [b])[1..] == queue[1..] + [b];
      CapturedAppend(queue[1..], b);
    }
  }

  lemma OpIdsAppend(ops: seq<AdaptOperation>, op: AdaptOperation)
    ensures OpIds(ops + [op]) == OpIds(ops) + [op.completion]
  {
  }

  lemma CallIdsAppend(calls: seq<Call>, call: Call)
    ensures CallIds(calls + [call]) == CallIds(calls) + [call.completion]
  {
  }

  /** Ending a refresh moves everything queued into the drain. */
  lemma EndedHolds(s: State, result: RefreshResult)
    ensures Held(Ended(s, result)) == Held(s)
  {
    CapturedAppend(s.queue, Ended(s, result).queue[|s.queue|]);
    assert OpIds([]) == [];
  }

  lemma WantedHolds(s: State, window: Option<RefreshWindow>, credential: nat, checked: real, stamped: real)
    ensures Held(Wanted(s, window, credential, checked, stamped)) == Held(s)
  {
    if Excessive(window, s.refreshTimestamps, checked) {
      EndedHolds(s, Failure(ExcessiveRefresh));
    } else {
      CapturedAppend(s.queue, CallRefresh(credential));
    }
  }

  lemma AdaptedHolds(s: State, window: Option<RefreshWindow>, op: AdaptOperation, requiresRefresh: bool, checked: real,
                     stamped: real)
    ensures Held(Adapted(s, window, op, requiresRefresh, checked, stamped)) ==
            Held(s) + if AdaptVerdict(s, requiresRefresh).AdaptDeferred? then multiset{op.completion} else multiset{}
  {
    OpIdsAppend(s.adaptOperations, op);
    if !s.isRefreshing && s.credential.Some? && requiresRefresh {
      WantedHolds(s.(adaptOperations := s.adaptOperations + [op]), window, s.credential.value, checked, stamped);
    }
  }

  lemma RetriedHolds(s: State, window: Option<RefreshWindow>, completion: nat, credential: nat, checked: real,
                     stamped: real)
    ensures Held(Retried(s, window, completion, credential, checked, stamped)) == Held(s) + multiset{completion}
  {
    if !s.isRefreshing {
      WantedHolds(s.(requestsToRetry := s.requestsToRetry + [completion]), window, credential, checked, stamped);
    }
  }

  lemma PendingHolds(w: World, call: Call)
    ensures Uncalled(w.(pending := w.pending + [call])) == Uncalled(w) + multiset{call.completion}
  {
    CallIdsAppend(w.pending, call);
  }

  lemma RetryingHolds(w: World, waiting: Waiting)
    ensures Uncalled(w.(retrying := w.retrying + [waiting])) == Uncalled(w) + multiset{waiting.completion}
  {
    assert WaitingIds(w.retrying + [waiting]) == WaitingIds(w.retrying) + [waiting.completion];
  }

  lemma StateHolds(w: World, s: State, more: multiset<nat>)
    requires Held(s) == Held(w.state) + more
    ensures Uncalled(w.(state := s)) == Uncalled(w) + more
  {
  }

  /** An adapt that was handed to the interceptor is held by it, or is about to be called. */
  lemma AdaptStepHolds(w: World, window: Option<RefreshWindow>, op: AdaptOperation, requiresRefresh: bool,
                       checked: real, stamped: real)
    ensures Uncalled(AdaptStep(w, window, op, requiresRefresh, checked, stamped)) ==
            Uncalled(w) + multiset{op.completion}
  {
    var w' := AdaptStep(w, window, op, requiresRefresh, checked, stamped);
    if AdaptVerdict(w.state, requiresRefresh).AdaptDeferred? {
      AdaptedHolds(w.state, window, op, requiresRefresh, checked, stamped);
      StateHolds(w, w'.state, multiset{op.completion});
      assert w' == w.(state := w'.state);
    } else {
      var call := w'.pending[|w.pending|];
      assert w' == w.(pending := w.pending + [call]) && call.completion == op.completion;
      PendingHolds(w, call);
    }
  }

  lemma RetryStepHolds(w: World, completion: nat, authenticationError: bool, authenticated: bool)
    ensures Uncalled(RetryStep(w, completion, authenticationError, authenticated)) == Uncalled(w) + multiset{completion}
  {
    if !authenticationError {
      PendingHolds(w, Call(completion, DoNotRetry));
    } else if w.state.credential.None? {
      PendingHolds(w, Call(completion, DoNotRetryWithError(MissingCredential)));
    } else if !authenticated {
      PendingHolds(w, Call(completion, Retry));
    } else {
      RetryingHolds(w, Waiting(completion, w.state.credential.value));
    }
  }

  lemma WithoutWaiting(waiting: seq<Waiting>, k: nat)
    requires k < |waiting|
    ensures multiset(WaitingIds(Without(waiting, k))) + multiset{waiting[k].completion} == multiset(WaitingIds(waiting))
  {
    assert WaitingIds(Without(waiting, k)) == Without(WaitingIds(waiting), k);
  }

  lemma WithoutCall(calls: seq<Call>, k: nat)
    requires k < |calls|
    ensures multiset(CallIds(Without(calls, k))) + multiset{calls[k].completion} == multiset(CallIds(calls))
  {
    assert CallIds(Without(calls, k)) == Without(CallIds(calls), k);
  }

  lemma QueueHolds(w: World, queue: seq<Block>, taken: multiset<nat>)
    requires CapturedBy(w.state.queue) == CapturedBy(queue) + taken
    ensures Uncalled(w) == Uncalled(WithQueue(w, queue)) + taken
  {
  }

  lemma FirstOp(adapts: seq<AdaptOperation>)
    requires adapts != []
    ensures multiset(OpIds(adapts)) == multiset{adapts[0].completion} + multiset(OpIds(adapts[1..]))
  {
    assert OpIds(adapts) == [adapts[0].completion] + OpIds(adapts[1..]);
  }

  lemma FirstRetry(retries: seq<nat>)
    requires retries != []
    ensures multiset(retries) == multiset{retries[0]} + multiset(retries[1..])
  {
    assert retries == [retries[0]] + retries[1..];
  }

  /** The head block is replaced by what is left of it. */
  lemma HeadHolds(w: World, head': Block, id: nat)
    requires w.state.queue != [] && Captured(w.state.queue[0]) == Captured(head') + multiset{id}
    ensures Uncalled(w) == Uncalled(WithQueue(w, [head'] + w.state.queue[1..])) + multiset{id}
  {
    var queue' := [head'] + w.state.queue[1..];
    assert queue'[1..] == w.state.queue[1..];
    QueueHolds(w, queue', multiset{id});
  }

  lemma CallHolds(w: World, w': World, call: Call)
    requires Uncalled(w) == Uncalled(w') + multiset{call.completion} && w'.called == w.called + [call]
    ensures Everywhere(w') == Everywhere(w)
  {
    CallIdsAppend(w.called, call);
  }

  /** A drain makes one call. */
  lemma DrainCalls(w: World, head': Block, call: Call)
    requires w.state.queue != [] && Captured(w.state.queue[0]) == Captured(head') + multiset{call.completion}
    ensures var w' := WithQueue(w, [head'] + w.state.queue[1..]).(called := w.called + [call]);
            Everywhere(w') == Everywhere(w)
  {
    HeadHolds(w, head', call.completion);
    var w1 := WithQueue(w, [head'] + w.state.queue[1..]);
    var w' := w1.(called := w.called + [call]);
    assert Uncalled(w') == Uncalled(w1);
    CallHolds(w, w', call);
  }

  lemma HeadGone(w: World, w': World)
    requires w.state.queue != [] && Captured(w.state.queue[0]) == multiset{}
    requires w' == WithQueue(w, w.state.queue[1..]).(unanswered := w'.unanswered, begun := w'.begun)
    ensures Everywhere(w') == Everywhere(w)
  {
    QueueHolds(w, w.state.queue[1..], multiset{});
    assert Uncalled(w') == Uncalled(WithQueue(w, w.state.queue[1..]));
  }

  lemma DrainAdapts(w: World, window: Option<RefreshWindow>, requiresRefresh: bool, checked: real, stamped: real)
    requires w.state.queue != [] && w.state.queue[0].DrainSuccess? && w.state.queue[0].adapts != []
    ensures Everywhere(QueueStep(w, window, requiresRefresh, checked, stamped)) == Everywhere(w)
  {
    var DrainSuccess(adapts, retries) := w.state.queue[0];
    var head' := DrainSuccess(adapts[1..], retries);
    FirstOp(adapts);
    HeadHolds(w, head', adapts[0].completion);
    AdaptStepHolds(WithQueue(w, [head'] + w.state.queue[1..]), window, adapts[0], requiresRefresh, checked, stamped);
  }

  lemma SuccessHolds(w: World, window: Option<RefreshWindow>, requiresRefresh: bool, checked: real, stamped: real)
    requires w.state.queue != [] && w.state.queue[0].DrainSuccess?
    ensures Everywhere(QueueStep(w, window, requiresRefresh, checked, stamped)) == Everywhere(w)
  {
    var DrainSuccess(adapts, retries) := w.state.queue[0];
    if adapts != [] {
      DrainAdapts(w, window, requiresRefresh, checked, stamped);
    } else if retries != [] {
      FirstRetry(retries);
      DrainCalls(w, DrainSuccess([], retries[1..]), Call(retries[0], Retry));
    } else {
      HeadGone(w, QueueStep(w, window, requiresRefresh, checked, stamped));
    }
  }

  lemma FailsAdapt(w: World, window: Option<RefreshWindow>, requiresRefresh: bool, checked: real, stamped: real)
    requires w.state.queue != [] && w.state.queue[0].DrainFailure? && w.state.queue[0].adapts != []
    ensures Everywhere(QueueStep(w, window, requiresRefresh, checked, stamped)) == Everywhere(w)
  {
    var DrainFailure(adapts, retries, error) := w.state.queue[0];
    FirstOp(adapts);
    DrainCalls(w, DrainFailure(adapts[1..], retries, error), Call(adapts[0].completion, AdaptFailed(error)));
  }

  lemma FailsRetry(w: World, window: Option<RefreshWindow>, requiresRefresh: bool, checked: real, stamped: real)
    requires w.state.queue != [] && w.state.queue[0].DrainFailure? && w.state.queue[0].adapts == []
    ensures Everywhere(QueueStep(w, window, requiresRefresh, checked, stamped)) == Everywhere(w)
  {
    var DrainFailure(adapts, retries, error) := w.state.queue[0];
    if retries != [] {
      FirstRetry(retries);
      DrainCalls(w, DrainFailure([], retries[1..], error), Call(retries[0], DoNotRetryWithError(error)));
    } else {
      HeadGone(w, QueueStep(w, window, requiresRefresh, checked, stamped));
    }
  }

  lemma FailureHolds(w: World, window: Option<RefreshWindow>, requiresRefresh: bool, checked: real, stamped: real)
    requires w.state.queue != [] && w.state.queue[0].DrainFailure?
    ensures Everywhere(QueueStep(w, window, requiresRefresh, checked, stamped)) == Everywhere(w)
  {
    if w.state.queue[0].adapts != [] {
      FailsAdapt(w, window, requiresRefresh, checked, stamped);
    } else {
      FailsRetry(w, window, requiresRefresh, checked, stamped);
    }
  }

  lemma QueueStepHolds(w: World, window: Option<RefreshWindow>, requiresRefresh: bool, checked: real, stamped: real)
    requires w.state.queue != []
    ensures Everywhere(QueueStep(w, window, requiresRefresh, checked, stamped)) == Everywhere(w)
  {
    match w.state.queue[0]
    case CallRefresh(_) => HeadGone(w, QueueStep(w, window, requiresRefresh, checked, stamped));
    case DrainSuccess(_, _) => SuccessHolds(w, window, requiresRefresh, checked, stamped);
    case DrainFailure(_, _, _) => FailureHolds(w, window, requiresRefresh, checked, stamped);
  }

  lemma LockRetryHolds(w: World, window: Option<RefreshWindow>, k: nat, checked: real, stamped: real)
    requires Enabled(w, LockRetry(k, checked, stamped))
    ensures Everywhere(Next(w, window, LockRetry(k, checked, stamped))) == Everywhere(w)
  {
    var waiting := w.retrying[k];
    RetriedHolds(w.state, window, waiting.completion, waiting.credential, checked, stamped);
    WithoutWaiting(w.retrying, k);
  }

  lemma MakeCallHolds(w: World, window: Option<RefreshWindow>, k: nat)
    requires Enabled(w, MakeCall(k))
    ensures Everywhere(Next(w, window, MakeCall(k))) == Everywhere(w)
  {
    WithoutCall(w.pending, k);
    CallHolds(w, Next(w, window, MakeCall(k)), w.pending[k]);
  }

  lemma IssuedAdds(w: World, w': World, id: nat)
    requires id !in w.issued && Conserved(w)
    requires Uncalled(w') == Uncalled(w) + multiset{id} && w'.called == w.called
    ensures Conserved(w'.(issued := w.issued + {id}))
  {
    assert multiset(w.issued + {id}) == multiset(w.issued) + multiset{id};
    assert Uncalled(w'.(issued := w.issued + {id})) == Uncalled(w');
  }

  lemma AnswerHolds(w: World, window: Option<RefreshWindow>, result: RefreshResult)
    requires Enabled(w, AnswerRefresh(result))
    ensures Everywhere(Next(w, window, AnswerRefresh(result))) == Everywhere(w)
  {
    EndedHolds(w.state, result);
  }

  /** Actions of the program and of the authenticator only move completions. */
  lemma InternalHolds(w: World, window: Option<RefreshWindow>, a: Action)
    requires Enabled(w, a) && !a.CallAdapt? && !a.CallRetry?
    ensures Everywhere(Next(w, window, a)) == Everywhere(w)
  {
    match a {
      case LockRetry(k, checked, stamped) => LockRetryHolds(w, window, k, checked, stamped);
      case MakeCall(k) => MakeCallHolds(w, window, k);
      case RunQueue(requiresRefresh, checked, stamped) => QueueStepHolds(w, window, requiresRefresh, checked, stamped);
      case AnswerRefresh(result) => AnswerHolds(w, window, result);
      case SetCredential(_) =>
    }
  }

  lemma CallAdaptConserves(w: World, window: Option<RefreshWindow>, op: AdaptOperation, requiresRefresh: bool,
                           checked: real, stamped: real)
    requires Conserved(w) && Enabled(w, CallAdapt(op, requiresRefresh, checked, stamped))
    ensures Conserved(Next(w, window, CallAdapt(op, requiresRefresh, checked, stamped)))
  {
    var w' := AdaptStep(w, window, op, requiresRefresh, checked, stamped);
    AdaptStepHolds(w, window, op, requiresRefresh, checked, stamped);
    assert w'.called == w.called;
    IssuedAdds(w, w', op.completion);
  }

  lemma CallRetryConserves(w: World, window: Option<RefreshWindow>, completion: nat, authenticationError: bool,
                           authenticated: bool)
    requires Conserved(w) && Enabled(w, CallRetry(completion, authenticationError, authenticated))
    ensures Conserved(Next(w, window, CallRetry(completion, authenticationError, authenticated)))
  {
    var w' := RetryStep(w, completion, authenticationError, authenticated);
    RetryStepHolds(w, completion, authenticationError, authenticated);
    assert w'.called == w.called;
    IssuedAdds(w, w', completion);
  }

  lemma InternalIssuesNothing(w: World, window: Option<RefreshWindow>, a: Action)
    requires Enabled(w, a) && !a.CallAdapt? && !a.CallRetry?
    ensures Next(w, window, a).issued == w.issued
  {
  }

  lemma NextKeepsConserved(w: World, window: Option<RefreshWindow>, a: Action)
    requires Conserved(w) && Enabled(w, a)
    ensures Conserved(Next(w, window, a))
  {
    match a {
      case CallAdapt(op, requiresRefresh, checked, stamped) =>
        CallAdaptConserves(w, window, op, requiresRefresh, checked, stamped);
      case CallRetry(completion, authenticationError, authenticated) =>
        CallRetryConserves(w, window, completion, authenticationError, authenticated);
      case _ =>
        InternalHolds(w, window, a);
        InternalIssuesNothing(w, window, a);
    }
  }

  // ---------------------------------------------------------------- the refresh rate

  lemma AdaptKeepsRate(w: World, window: Option<RefreshWindow>, op: AdaptOperation, requiresRefresh: bool,
                       checked: real, stamped: real)
    requires RateLimited(window, w.state.refreshTimestamps) && checked <= stamped
    ensures RateLimited(window, AdaptStep(w, window, op, requiresRefresh, checked, stamped).state.refreshTimestamps)
  {
    if !w.state.isRefreshing && w.state.credential.Some? && requiresRefresh {
      WantedKeepsRate(w.state.(adaptOperations := w.state.adaptOperations + [op]), window, w.state.credential.value,
                      checked, stamped);
    }
  }

  lemma NextKeepsRate(w: World, window: Option<RefreshWindow>, a: Action)
    requires RateLimited(window, w.state.refreshTimestamps) && Enabled(w, a)
    ensures RateLimited(window, Next(w, window, a).state.refreshTimestamps)
  {
    match a {
      case CallAdapt(op, requiresRefresh, checked, stamped) =>
        AdaptKeepsRate(w, window, op, requiresRefresh, checked, stamped);
      case LockRetry(k, checked, stamped) =>
        if !w.state.isRefreshing {
          var waiting := w.retrying[k];
          WantedKeepsRate(w.state.(requestsToRetry := w.state.requestsToRetry + [waiting.completion]), window,
                          waiting.credential, checked, stamped);
        }
      case RunQueue(requiresRefresh, checked, stamped) =>
        var head, rest := w.state.queue[0], w.state.queue[1..];
        if head.DrainSuccess? && head.adapts != [] {
          var w' := WithQueue(w, [DrainSuccess(head.adapts[1..], head.retries)] + rest);
          AdaptKeepsRate(w', window, head.adapts[0], requiresRefresh, checked, stamped);
        }
      case _ =>
    }
  }
}
