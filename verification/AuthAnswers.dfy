/** Where the credentials and the errors come from that AuthenticationInterceptor hands to its callers. */
module AuthAnswers {
  import opened Bits
  import opened Authentication
  import opened AuthProtocol
  import opened Sequences

  /** What has been provided to the interceptor, and what has been refused to it. */
  datatype Sources = Sources(window: Option<RefreshWindow>, granted: set<nat>, refused: set<Error>)

  function SourcesOf(w: World, window: Option<RefreshWindow>): Sources
  {
    Sources(window, w.granted, w.refused)
  }

  /** An error is one the authenticator answered, or the interceptor's own: no credential, or too many refreshes. */
  predicate GenuineError(src: Sources, e: Error)
  {
    e.MissingCredential? || (e.ExcessiveRefresh? && src.window.Some?) || e in src.refused
  }

  predicate GenuineAnswer(src: Sources, a: Answer)
  {
    match a
    case Authenticated(_, credential) => credential in src.granted
    case AdaptFailed(error) => GenuineError(src, error)
    case DoNotRetryWithError(error) => GenuineError(src, error)
    case _ => true
  }

  predicate GenuineBlock(src: Sources, b: Block)
  {
    match b
    case CallRefresh(credential) => credential in src.granted
    case DrainSuccess(_, _) => true
    case DrainFailure(_, _, error) => GenuineError(src, error)
  }

  ghost predicate GenuineQueue(src: Sources, queue: seq<Block>)
  {
    forall b :: b in queue ==> GenuineBlock(src, b)
  }

  ghost predicate GenuineState(src: Sources, s: State)
  {
    (s.credential.Some? ==> s.credential.value in src.granted) && GenuineQueue(src, s.queue)
  }

  ghost predicate GenuineCalls(src: Sources, calls: seq<Call>)
  {
    forall c :: c in calls ==> GenuineAnswer(src, c.answer)
  }

  /** Every credential in use was provided, and every error reported is genuine. */
  ghost predicate Genuine(w: World, window: Option<RefreshWindow>)
  {
    var src := SourcesOf(w, window);
    && GenuineState(src, w.state)
    && (forall r :: r in w.retrying ==> r.credential in src.granted)
    && (forall c :: c in w.begun ==> c in src.granted)
    && GenuineCalls(src, w.pending)
    && GenuineCalls(src, w.called)
  }

  lemma EndedGenuine(src: Sources, src': Sources, s: State, result: RefreshResult)
    requires GenuineState(src, s)
    requires src'.window == src.window && src.granted <= src'.granted && src.refused <= src'.refused
    requires if result.Success? then result.credential in src'.granted else GenuineError(src', result.error)
    ensures GenuineState(src', Ended(s, result))
  {
    forall b | b in Ended(s, result).queue ensures GenuineBlock(src', b) {
      assert b in s.queue || b == Ended(s, result).queue[|s.queue|];
    }
  }

  lemma WantedGenuine(src: Sources, s: State, credential: nat, checked: real, stamped: real)
    requires GenuineState(src, s) && credential in src.granted
    ensures GenuineState(src, Wanted(s, src.window, credential, checked, stamped))
  {
    if Excessive(src.window, s.refreshTimestamps, checked) {
      EndedGenuine(src, src, s, Failure(ExcessiveRefresh));
    }
  }

  lemma AdaptStepGenuine(w: World, window: Option<RefreshWindow>, op: AdaptOperation, requiresRefresh: bool,
                         checked: real, stamped: real)
    requires Genuine(w, window)
    ensures Genuine(AdaptStep(w, window, op, requiresRefresh, checked, stamped), window)
  {
    if !w.state.isRefreshing && w.state.credential.Some? && requiresRefresh {
      WantedGenuine(SourcesOf(w, window), w.state.(adaptOperations := w.state.adaptOperations + [op]),
                    w.state.credential.value, checked, stamped);
    }
  }

  lemma LockRetryGenuine(w: World, window: Option<RefreshWindow>, k: nat, checked: real, stamped: real)
    requires Genuine(w, window) && Enabled(w, LockRetry(k, checked, stamped))
    ensures Genuine(Next(w, window, LockRetry(k, checked, stamped)), window)
  {
    var r := w.retrying[k];
    var queued := w.state.(requestsToRetry := w.state.requestsToRetry + [r.completion]);
    if !w.state.isRefreshing {
      WantedGenuine(SourcesOf(w, window), queued, r.credential, checked, stamped);
    }
    KeepsAll(w.retrying, k);
  }

  /** What is left after removing an entry was there before. */
  lemma KeepsAll<T>(s: seq<T>, k: nat)
    requires k < |s|
    ensures forall x :: x in Without(s, k) ==> x in s
  {
    forall x | x in Without(s, k) ensures x in s {
      assert x in multiset(Without(s, k));
      assert x in multiset(s);
    }
  }

  lemma MakeCallGenuine(w: World, window: Option<RefreshWindow>, k: nat)
    requires Genuine(w, window) && Enabled(w, MakeCall(k))
    ensures Genuine(Next(w, window, MakeCall(k)), window)
  {
    KeepsAll(w.pending, k);
  }

  lemma AnswerGenuine(w: World, window: Option<RefreshWindow>, result: RefreshResult)
    requires Genuine(w, window) && Enabled(w, AnswerRefresh(result))
    ensures Genuine(Next(w, window, AnswerRefresh(result)), window)
  {
    var w' := Next(w, window, AnswerRefresh(result));
    EndedGenuine(SourcesOf(w, window), SourcesOf(w', window), w.state, result);
  }

  lemma DrainGenuine(src: Sources, s: State, head: Block)
    requires GenuineState(src, s) && s.queue != [] && GenuineBlock(src, head)
    ensures GenuineState(src, s.(queue := [head] + s.queue[1..]))
  {
  }

  lemma QueueStepGenuine(w: World, window: Option<RefreshWindow>, requiresRefresh: bool, checked: real, stamped: real)
    requires Genuine(w, window) && w.state.queue != []
    ensures Genuine(QueueStep(w, window, requiresRefresh, checked, stamped), window)
  {
    var src, head := SourcesOf(w, window), w.state.queue[0];
    assert GenuineBlock(src, head);
    if head.DrainSuccess? && head.adapts != [] {
      var head' := DrainSuccess(head.adapts[1..], head.retries);
      DrainGenuine(src, w.state, head');
      AdaptStepGenuine(WithQueue(w, [head'] + w.state.queue[1..]), window, head.adapts[0], requiresRefresh, checked,
                       stamped);
    }
  }

  lemma NextKeepsGenuine(w: World, window: Option<RefreshWindow>, a: Action)
    requires Genuine(w, window) && Enabled(w, a)
    ensures Genuine(Next(w, window, a), window)
  {
    match a {
      case CallAdapt(op, requiresRefresh, checked, stamped) =>
        AdaptStepGenuine(w, window, op, requiresRefresh, checked, stamped);
      case CallRetry(_, _, _) =>
      case LockRetry(k, checked, stamped) => LockRetryGenuine(w, window, k, checked, stamped);
      case MakeCall(k) => MakeCallGenuine(w, window, k);
      case RunQueue(requiresRefresh, checked, stamped) =>
        QueueStepGenuine(w, window, requiresRefresh, checked, stamped);
      case AnswerRefresh(result) => AnswerGenuine(w, window, result);
      case SetCredential(_) =>
    }
  }

  lemma {:induction false} RunsKeepGenuine(w: World, window: Option<RefreshWindow>, actions: seq<Action>)
    requires Genuine(w, window) && Run(w, window, actions)
    ensures Genuine(Final(w, window, actions), window)
    decreases |actions|
  {
    if actions == [] {
    } else {
      NextKeepsGenuine(w, window, actions[0]);
      RunsKeepGenuine(Next(w, window, actions[0]), window, actions[1..]);
    }
  }

  /** Over every run, each call made authenticates with a credential that was provided, or reports an error that the
      authenticator answered or that the interceptor itself defines. */
  lemma AnswersAreGenuine(credential: Option<nat>, window: Option<RefreshWindow>, actions: seq<Action>)
    requires Run(Initial(credential), window, actions)
    ensures var w := Final(Initial(credential), window, actions); GenuineCalls(SourcesOf(w, window), w.called)
  {
    RunsKeepGenuine(Initial(credential), window, actions);
  }

  /** While a refresh is under way no request is authenticated: whenever a call with a credential is decided, no refresh
      is outstanding and the credential is the one held at that moment, which did not ask to be refreshed. */
  lemma AuthenticatesWithCurrent(w: World, window: Option<RefreshWindow>, a: Action)
    requires SingleFlight(w) && Enabled(w, a) && !a.MakeCall?
    requires var w' := Next(w, window, a); w'.pending != w.pending && w'.pending[|w.pending|].answer.Authenticated?
    ensures CallsIn(w.state.queue) == 0 && w.unanswered == 0 && (a.CallAdapt? || a.RunQueue?) && !a.requiresRefresh
    ensures w.state.credential == Some(Next(w, window, a).pending[|w.pending|].answer.credential)
  {
  }
}
