/** Which credential AuthenticationInterceptor holds, uses and refreshes, told from the history of the run alone. */
module AuthHistory {
  import opened Bits
  import opened Authentication
  import opened RefreshRate
  import opened AuthProtocol
  import opened AuthRuns
  import opened AuthAnswers
  import opened Sequences

  // ---------------------------------------------------------------- the last step of a run

  lemma {:induction false} LastStep(w: World, window: Option<RefreshWindow>, actions: seq<Action>)
    requires Run(w, window, actions) && actions != []
    ensures var last := |actions| - 1;
            && Run(w, window, actions[..last]) && Enabled(Final(w, window, actions[..last]), actions[last])
            && Final(w, window, actions) == Next(Final(w, window, actions[..last]), window, actions[last])
    decreases |actions|
  {
    var last := |actions| - 1;
    if last == 0 {
    } else {
      var w', rest := Next(w, window, actions[0]), actions[1..];
      LastStep(w', window, rest);
      assert actions[..last][1..] == rest[..last - 1];
      assert actions[..last][0] == actions[0];
    }
  }

  // ---------------------------------------------------------------- the credential held

  /** The credential of the latest successful refresh, or the one set since by the owner; at first the initial one. */
  function Latest(initial: Option<nat>, actions: seq<Action>): Option<nat>
  {
    if actions == [] then initial
    else
      var last := actions[|actions| - 1];
      if last.AnswerRefresh? && last.result.Success? then Some(last.result.credential)
      else if last.SetCredential? then last.credential
      else Latest(initial, actions[..|actions| - 1])
  }

  lemma EndedCredential(s: State, result: RefreshResult)
    ensures Ended(s, result).credential == if result.Success? then Some(result.credential) else s.credential
  {
  }

  /** Only the authenticator and the owner change the credential. */
  lemma StepCredential(w: World, window: Option<RefreshWindow>, a: Action)
    requires Enabled(w, a)
    ensures Next(w, window, a).state.credential ==
            if a.AnswerRefresh? && a.result.Success? then Some(a.result.credential)
            else if a.SetCredential? then a.credential
            else w.state.credential
  {
    match a {
      case AnswerRefresh(result) => EndedCredential(w.state, result);
      case _ =>
    }
  }

  /** Over every run the credential held is the latest one provided. */
  lemma {:induction false} HeldIsLatest(w: World, window: Option<RefreshWindow>, actions: seq<Action>)
    requires Run(w, window, actions)
    ensures Final(w, window, actions).state.credential == Latest(w.state.credential, actions)
    decreases |actions|
  {
    if actions == [] {
    } else {
      var last := |actions| - 1;
      LastStep(w, window, actions);
      HeldIsLatest(w, window, actions[..last]);
      StepCredential(Final(w, window, actions[..last]), window, actions[last]);
    }
  }

  // ---------------------------------------------------------------- the credentials used

  /** Step k of the run decided this call, which authenticates with the credential provided last before it. */
  ghost predicate DecidedAt(
      initial: Option<nat>, window: Option<RefreshWindow>, actions: seq<Action>, k: nat, call: Call)
  {
    && k < |actions| && call.answer.Authenticated?
    && Run(Initial(initial), window, actions[..k]) && Run(Initial(initial), window, actions[..k + 1])
    && Final(Initial(initial), window, actions[..k + 1]).pending ==
       Final(Initial(initial), window, actions[..k]).pending + [call]
    && Latest(initial, actions[..k]) == Some(call.answer.credential)
  }

  /** A call that authenticates is decided before it is made, and nothing else makes one. */
  lemma CallsCome(w: World, window: Option<RefreshWindow>, a: Action, call: Call)
    requires Enabled(w, a) && call.answer.Authenticated?
    requires call in Next(w, window, a).pending || call in Next(w, window, a).called
    ensures call in w.pending || call in w.called || (!a.MakeCall? && Next(w, window, a).pending == w.pending + [call])
  {
    if a.MakeCall? {
      KeepsAll(w.pending, a.k);
    }
  }

  lemma DecidesNow(initial: Option<nat>, window: Option<RefreshWindow>, actions: seq<Action>, call: Call)
    requires Run(Initial(initial), window, actions) && actions != [] && call.answer.Authenticated?
    requires var last := |actions| - 1;
             && Run(Initial(initial), window, actions[..last]) && !actions[last].MakeCall?
             && Final(Initial(initial), window, actions).pending ==
                Final(Initial(initial), window, actions[..last]).pending + [call]
    ensures DecidedAt(initial, window, actions, |actions| - 1, call)
  {
    var last := |actions| - 1;
    var w := Final(Initial(initial), window, actions[..last]);
    LastStep(Initial(initial), window, actions);
    OneRefreshAtATime(initial, window, actions[..last]);
    AuthenticatesWithCurrent(w, window, actions[last]);
    HeldIsLatest(Initial(initial), window, actions[..last]);
    assert actions[..last + 1] == actions;
  }

  lemma DecidedBefore(initial: Option<nat>, window: Option<RefreshWindow>, actions: seq<Action>, k: nat, call: Call)
    requires actions != [] && DecidedAt(initial, window, actions[..|actions| - 1], k, call)
    ensures DecidedAt(initial, window, actions, k, call)
  {
    var before := actions[..|actions| - 1];
    assert before[..k] == actions[..k] && before[..k + 1] == actions[..k + 1];
  }

  /** Over every run, each call that authenticates a request was decided by one of its steps, with the credential of the
      latest successful refresh, or of the owner, at that step. */
  lemma {:induction false} EveryCallUsesLatest(
      initial: Option<nat>, window: Option<RefreshWindow>, actions: seq<Action>, call: Call) returns (k: nat)
    requires Run(Initial(initial), window, actions) && call.answer.Authenticated?
    requires var w := Final(Initial(initial), window, actions); call in w.pending || call in w.called
    ensures DecidedAt(initial, window, actions, k, call)
    decreases |actions|
  {
    if actions == [] {
      assert false;
    } else {
      var last := |actions| - 1;
      LastStep(Initial(initial), window, actions);
      var w := Final(Initial(initial), window, actions[..last]);
      CallsCome(w, window, actions[last], call);
      if call in w.pending || call in w.called {
        k := EveryCallUsesLatest(initial, window, actions[..last], call);
        DecidedBefore(initial, window, actions, k, call);
      } else {
        k := last;
        DecidesNow(initial, window, actions, call);
      }
    }
  }

  /** The authenticator and the owner provide nothing. */
  predicate NothingProvided(actions: seq<Action>)
  {
    forall i :: 0 <= i < |actions| ==>
      !actions[i].SetCredential? && !(actions[i].AnswerRefresh? && actions[i].result.Success?)
  }

  lemma {:induction false} LatestStays(initial: Option<nat>, before: seq<Action>, actions: seq<Action>)
    requires NothingProvided(actions)
    ensures Latest(initial, before + actions) == Latest(initial, before)
    decreases |actions|
  {
    if actions == [] {
      assert before + actions == before;
    } else {
      var last := |actions| - 1;
      assert (before + actions)[..|before| + last] == before + actions[..last];
      LatestStays(initial, before, actions[..last]);
    }
  }

  /** After a refresh that succeeds with c, every request authenticated before anything else is provided is
      authenticated with c, those that were queued during the refresh included. */
  lemma SuccessIsUsed(initial: Option<nat>, window: Option<RefreshWindow>, before: seq<Action>, c: nat,
                      actions: seq<Action>, k: nat, call: Call)
    requires NothingProvided(actions) && k > |before|
    requires DecidedAt(initial, window, before + [AnswerRefresh(Success(c))] + actions, k, call)
    ensures call.answer.credential == c
  {
    var answered := before + [AnswerRefresh(Success(c))];
    var some := actions[..k - |answered|];
    assert (answered + actions)[..k] == answered + some;
    LatestStays(initial, answered, some);
    assert answered[|answered| - 1] == AnswerRefresh(Success(c));
  }

  // ---------------------------------------------------------------- the refreshes started

  /** The indices of the timestamps that are not before `from`. */
  function Recent(timestamps: seq<real>, from: real): set<nat>
  {
    set k: nat | k < |timestamps| && from <= timestamps[k]
  }

  lemma {:induction false} SinceCounts(timestamps: seq<real>, from: real)
    ensures Since(timestamps, from) == |Recent(timestamps, from)|
  {
    if timestamps == [] {
      assert Recent(timestamps, from) == {};
    } else {
      var last := |timestamps| - 1;
      SinceCounts(timestamps[..last], from);
      assert Recent(timestamps, from) ==
             Recent(timestamps[..last], from) + if from <= timestamps[last] then {last} else {};
    }
  }

  /** The window is full: as many refreshes as it allows were recorded inside it. */
  predicate Full(window: Option<RefreshWindow>, timestamps: seq<real>, now: real)
  {
    window.Some? && |Recent(timestamps, now - window.value.interval)| >= window.value.maximumAttempts
  }

  /** The credential a step would have refreshed if no refresh is under way, and the two readings of the clock. */
  function Asks(w: World, a: Action): Option<(nat, real, real)>
    requires Enabled(w, a)
  {
    match a
    case CallAdapt(_, requiresRefresh, checked, stamped) =>
      if requiresRefresh && w.state.credential.Some? then Some((w.state.credential.value, checked, stamped)) else None
    case RunQueue(requiresRefresh, checked, stamped) =>
      var head := w.state.queue[0];
      if head.DrainSuccess? && head.adapts != [] && requiresRefresh && w.state.credential.Some?
      then Some((w.state.credential.value, checked, stamped)) else None
    case LockRetry(k, checked, stamped) => Some((w.retrying[k].credential, checked, stamped))
    case _ => None
  }

  /** A refresh starts exactly when a step asks for one, none is under way and the window is not full; it is for the
      credential the step saw. */
  lemma StartsWhenAsked(w: World, window: Option<RefreshWindow>, a: Action)
    requires Enabled(w, a) && !w.state.isRefreshing
    ensures var s, asks := Next(w, window, a).state, Asks(w, a);
            && (s.isRefreshing <==> asks.Some? && !Full(window, w.state.refreshTimestamps, asks.value.1))
            && (s.isRefreshing ==>
                  && s.refreshTimestamps == w.state.refreshTimestamps + [asks.value.2]
                  && s.queue != [] && s.queue[|s.queue| - 1] == CallRefresh(asks.value.0))
            && (!s.isRefreshing ==> s.refreshTimestamps == w.state.refreshTimestamps)
  {
    var asks := Asks(w, a);
    if asks.Some? && window.Some? {
      SinceCounts(w.state.refreshTimestamps, asks.value.1 - window.value.interval);
    }
  }

  /** c was the latest credential provided at some point of the run. */
  ghost predicate WasLatest(initial: Option<nat>, actions: seq<Action>, c: nat)
  {
    exists k: nat :: k <= |actions| && Latest(initial, actions[..k]) == Some(c)
  }

  ghost predicate AllWereLatest(initial: Option<nat>, actions: seq<Action>, w: World)
  {
    && (forall b :: b in w.state.queue && b.CallRefresh? ==> WasLatest(initial, actions, b.credential))
    && (forall r :: r in w.retrying ==> WasLatest(initial, actions, r.credential))
    && (forall c :: c in w.begun ==> WasLatest(initial, actions, c))
  }

  lemma WereLatest(initial: Option<nat>, before: seq<Action>, a: Action, c: nat)
    requires WasLatest(initial, before, c)
    ensures WasLatest(initial, before + [a], c)
  {
    var k: nat :| k <= |before| && Latest(initial, before[..k]) == Some(c);
    assert (before + [a])[..k] == before[..k];
  }

  lemma NowLatest(initial: Option<nat>, before: seq<Action>, a: Action, c: nat)
    requires Latest(initial, before) == Some(c)
    ensures WasLatest(initial, before + [a], c)
  {
    assert (before + [a])[..|before|] == before;
  }

  /** The credentials to refresh after a step were there before, or are the one held. */
  ghost predicate TakesHeld(w: World, w': World)
  {
    && (forall r :: r in w'.retrying && r !in w.retrying ==> Some(r.credential) == w.state.credential)
    && (forall b :: b in w'.state.queue && b !in w.state.queue && b.CallRefresh? ==>
          Some(b.credential) == w.state.credential || exists r :: r in w.retrying && r.credential == b.credential)
    && (forall c :: c in w'.begun && c !in w.begun ==> CallRefresh(c) in w.state.queue)
  }

  lemma QueueStepTakesHeld(w: World, window: Option<RefreshWindow>, requiresRefresh: bool, checked: real,
                           stamped: real)
    requires w.state.queue != []
    ensures TakesHeld(w, QueueStep(w, window, requiresRefresh, checked, stamped))
  {
    assert w.state.queue[0] in w.state.queue;
  }

  lemma StepTakesHeld(w: World, window: Option<RefreshWindow>, a: Action)
    requires Enabled(w, a)
    ensures TakesHeld(w, Next(w, window, a))
  {
    match a {
      case LockRetry(k, _, _) => KeepsAll(w.retrying, k);
      case RunQueue(requiresRefresh, checked, stamped) =>
        QueueStepTakesHeld(w, window, requiresRefresh, checked, stamped);
      case _ =>
    }
  }

  /** Over every run, each refresh handed to the authenticator is for a credential that was the latest at some point of
      the run: when its adapt was decided, or when its retry read it. */
  lemma {:induction false} RefreshesWereLatest(
      initial: Option<nat>, window: Option<RefreshWindow>, actions: seq<Action>)
    requires Run(Initial(initial), window, actions)
    ensures AllWereLatest(initial, actions, Final(Initial(initial), window, actions))
    decreases |actions|
  {
    if actions == [] {
    } else {
      var last := |actions| - 1;
      var before, a := actions[..last], actions[last];
      LastStep(Initial(initial), window, actions);
      RefreshesWereLatest(initial, window, before);
      HeldIsLatest(Initial(initial), window, before);
      assert actions == before + [a];
      StepKeepsLatest(initial, window, before, a, Final(Initial(initial), window, before));
    }
  }

  lemma StepKeepsLatest(initial: Option<nat>, window: Option<RefreshWindow>, before: seq<Action>, a: Action, w: World)
    requires Enabled(w, a) && AllWereLatest(initial, before, w) && w.state.credential == Latest(initial, before)
    ensures AllWereLatest(initial, before + [a], Next(w, window, a))
  {
    StepTakesHeld(w, window, a);
    forall c: nat ensures WasLatest(initial, before, c) ==> WasLatest(initial, before + [a], c) {
      if WasLatest(initial, before, c) {
        WereLatest(initial, before, a, c);
      }
    }
    if w.state.credential.Some? {
      NowLatest(initial, before, a, w.state.credential.value);
    }
  }
}
