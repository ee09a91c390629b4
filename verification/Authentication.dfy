/** AuthenticationInterceptor.swift: the locked sections, as a class over its mutable state and serial queue, and the
    functions they compute. */
module Authentication {
  import opened Bits

  datatype RefreshWindow = RefreshWindow(interval: real, maximumAttempts: int)

  datatype Error = MissingCredential | ExcessiveRefresh | RefreshFailed(code: nat)

  datatype AdaptOperation = AdaptOperation(urlRequest: nat, completion: nat)

  datatype AdaptResult = Adapt(credential: nat) | DoNotAdapt(error: Error) | AdaptDeferred

  datatype RefreshResult = Success(credential: nat) | Failure(error: Error)

  /** A closure waiting on the interceptor's serial queue. The two drains hold the completions they captured. */
  datatype Block =
    | CallRefresh(credential: nat)
    | DrainSuccess(adapts: seq<AdaptOperation>, retries: seq<nat>)
    | DrainFailure(adapts: seq<AdaptOperation>, retries: seq<nat>, error: Error)

  /** MutableState without the window, which never changes, and the queue. Completions are numbered. */
  datatype State = State(
    credential: Option<nat>, isRefreshing: bool, refreshTimestamps: seq<real>,
    adaptOperations: seq<AdaptOperation>, requestsToRetry: seq<nat>, queue: seq<Block>)

  /** How many of the timestamps are not before `from`. */
  function Since(timestamps: seq<real>, from: real): (n: nat)
    ensures n <= |timestamps|
  {
    if timestamps == [] then 0
    else
      var last := |timestamps| - 1;
      Since(timestamps[..last], from) + if from <= timestamps[last] then 1 else 0
  }

  predicate Excessive(window: Option<RefreshWindow>, timestamps: seq<real>, now: real)
  {
    window.Some? && Since(timestamps, now - window.value.interval) >= window.value.maximumAttempts
  }

  /** A refresh has ended: everything queued goes to one drain. */
  function Ended(s: State, result: RefreshResult): State
  {
    var drain := match result
      case Success(_) => DrainSuccess(s.adaptOperations, s.requestsToRetry)
      case Failure(error) => DrainFailure(s.adaptOperations, s.requestsToRetry, error);
    s.(credential := if result.Success? then Some(result.credential) else s.credential,
       isRefreshing := false, adaptOperations := [], requestsToRetry := [], queue := s.queue + [drain])
  }

  /** A refresh is wanted; the clock reads `checked` for the window and `stamped` for the record. */
  function Wanted(s: State, window: Option<RefreshWindow>, credential: nat, checked: real, stamped: real): State
  {
    if Excessive(window, s.refreshTimestamps, checked) then Ended(s, Failure(ExcessiveRefresh))
    else s.(isRefreshing := true, refreshTimestamps := s.refreshTimestamps + [stamped],
            queue := s.queue + [CallRefresh(credential)])
  }

  function AdaptVerdict(s: State, requiresRefresh: bool): AdaptResult
  {
    if s.isRefreshing then AdaptDeferred
    else if s.credential.None? then DoNotAdapt(MissingCredential)
    else if requiresRefresh then AdaptDeferred
    else Adapt(s.credential.value)
  }

  /** The locked section of adapt. */
  function Adapted(s: State, window: Option<RefreshWindow>, op: AdaptOperation, requiresRefresh: bool, checked: real,
                   stamped: real): State
  {
    if !AdaptVerdict(s, requiresRefresh).AdaptDeferred? then s
    else
      var queued := s.(adaptOperations := s.adaptOperations + [op]);
      if s.isRefreshing then queued else Wanted(queued, window, s.credential.value, checked, stamped)
  }

  /** The locked section of retry, with the credential read before. */
  function Retried(s: State, window: Option<RefreshWindow>, completion: nat, credential: nat, checked: real,
                   stamped: real): State
  {
    var queued := s.(requestsToRetry := s.requestsToRetry + [completion]);
    if s.isRefreshing then queued else Wanted(queued, window, credential, checked, stamped)
  }

  class AuthenticationInterceptor {
    const refreshWindow: Option<RefreshWindow>
    var credential: Option<nat>
    var isRefreshing: bool
    var refreshTimestamps: seq<real>
    var adaptOperations: seq<AdaptOperation>
    var requestsToRetry: seq<nat>
    var queue: seq<Block>

    function Now(): State
      reads this
    {
      State(credential, isRefreshing, refreshTimestamps, adaptOperations, requestsToRetry, queue)
    }

    constructor (credential: Option<nat>, refreshWindow: Option<RefreshWindow>)
      ensures Now() == State(credential, false, [], [], [], []) && this.refreshWindow == refreshWindow
    {
      this.credential := credential;
      this.refreshWindow := refreshWindow;
      isRefreshing := false;
      refreshTimestamps, adaptOperations, requestsToRetry, queue := [], [], [], [];
    }

    /** isRefreshExcessive */
    method IsRefreshExcessive(systemUptime: real) returns (excessive: bool)
      ensures excessive == Excessive(refreshWindow, refreshTimestamps, systemUptime)
    {
      if refreshWindow.None? {
        return false;
      }
      var refreshWindowMin := systemUptime - refreshWindow.value.interval;
      var attempts := 0;
      for i := 0 to |refreshTimestamps|
        invariant attempts == Since(refreshTimestamps[..i], refreshWindowMin)
      {
        assert refreshTimestamps[..i + 1][..i] == refreshTimestamps[..i];
        if refreshWindowMin <= refreshTimestamps[i] {
          attempts := attempts + 1;
        }
      }
      assert refreshTimestamps[..|refreshTimestamps|] == refreshTimestamps;
      excessive := attempts >= refreshWindow.value.maximumAttempts;
    }

    /** handleRefreshSuccess */
    method HandleRefreshSuccess(newCredential: nat)
      modifies this
      ensures Now() == Ended(old(Now()), Success(newCredential))
    {
      credential := Some(newCredential);
      var operations, requests := adaptOperations, requestsToRetry;
      adaptOperations := [];
      requestsToRetry := [];
      isRefreshing := false;
      queue := queue + [DrainSuccess(operations, requests)];
    }

    /** handleRefreshFailure */
    method HandleRefreshFailure(error: Error)
      modifies this
      ensures Now() == Ended(old(Now()), Failure(error))
    {
      var operations, requests := adaptOperations, requestsToRetry;
      adaptOperations := [];
      requestsToRetry := [];
      isRefreshing := false;
      queue := queue + [DrainFailure(operations, requests, error)];
    }

    /** refresh, with its two readings of the clock. */
    method Refresh(current: nat, checked: real, stamped: real)
      modifies this
      ensures Now() == Wanted(old(Now()), refreshWindow, current, checked, stamped)
    {
      var excessive := IsRefreshExcessive(checked);
      if excessive {
        HandleRefreshFailure(ExcessiveRefresh);
        return;
      }
      refreshTimestamps := refreshTimestamps + [stamped];
      isRefreshing := true;
      queue := queue + [CallRefresh(current)];
    }

    /** The locked section of adapt. */
    method AdaptLocked(op: AdaptOperation, requiresRefresh: bool, checked: real, stamped: real)
      returns (result: AdaptResult)
      modifies this
      ensures result == AdaptVerdict(old(Now()), requiresRefresh)
      ensures Now() == Adapted(old(Now()), refreshWindow, op, requiresRefresh, checked, stamped)
    {
      if isRefreshing {
        adaptOperations := adaptOperations + [op];
        return AdaptDeferred;
      }
      if credential.None? {
        return DoNotAdapt(MissingCredential);
      }
      if requiresRefresh {
        adaptOperations := adaptOperations + [op];
        Refresh(credential.value, checked, stamped);
        return AdaptDeferred;
      }
      result := Adapt(credential.value);
    }

    /** The locked section of retry. */
    method RetryLocked(completion: nat, current: nat, checked: real, stamped: real)
      modifies this
      ensures Now() == Retried(old(Now()), refreshWindow, completion, current, checked, stamped)
    {
      requestsToRetry := requestsToRetry + [completion];
      if isRefreshing {
        return;
      }
      Refresh(current, checked, stamped);
    }
  }
}
