/** DataStreamRequest: the counter that holds completion events back until every parser invocation has finished. */
module DataStream {
  import opened Bits
  import opened Sequences

  /** StreamMutableState: for each registered parser the dispatches it makes before its handler runs, the counter, and
      the completion events held back. `released` are the events whose delivery has been dispatched. */
  datatype StreamState = StreamState(streams: seq<nat>, numberOfExecutingStreams: int,
                                     enqueuedCompletionEvents: seq<nat>, released: seq<nat>)

  /** didReceive: every registered parser is captured. */
  function Received(s: StreamState): StreamState
  {
    s.(numberOfExecutingStreams := s.numberOfExecutingStreams + |s.streams|)
  }

  /** updateAndCompleteIfPossible */
  function Updated(s: StreamState): StreamState
  {
    var n := s.numberOfExecutingStreams - 1;
    if n == 0 && s.enqueuedCompletionEvents != [] then
      s.(numberOfExecutingStreams := n, released := s.released + s.enqueuedCompletionEvents,
         enqueuedCompletionEvents := [])
    else s.(numberOfExecutingStreams := n)
  }

  /** The locked section of a stream completion. */
  function Completed(s: StreamState, event: nat): StreamState
  {
    if s.numberOfExecutingStreams == 0 then s.(released := s.released + [event])
    else s.(enqueuedCompletionEvents := s.enqueuedCompletionEvents + [event])
  }

  class DataStreamRequest {
    var streams: seq<nat>
    var numberOfExecutingStreams: int
    var enqueuedCompletionEvents: seq<nat>
    var released: seq<nat>

    function Now(): StreamState
      reads this
    {
      StreamState(streams, numberOfExecutingStreams, enqueuedCompletionEvents, released)
    }

    constructor ()
      ensures Now() == StreamState([], 0, [], [])
    {
      streams, numberOfExecutingStreams, enqueuedCompletionEvents, released := [], 0, [], [];
    }

    /** responseStream: registers a parser. */
    method AddParser(hops: nat)
      modifies this
      ensures Now() == old(Now()).(streams := old(streams) + [hops])
    {
      streams := streams + [hops];
    }

    /** didReceive: returns the parsers of the block it dispatches. */
    method DidReceive() returns (captured: seq<nat>)
      modifies this
      ensures captured == old(streams) && Now() == Received(old(Now()))
    {
      numberOfExecutingStreams := numberOfExecutingStreams + |streams|;
      captured := streams;
    }

    method UpdateAndCompleteIfPossible()
      modifies this
      ensures Now() == Updated(old(Now()))
    {
      numberOfExecutingStreams := numberOfExecutingStreams - 1;
      if numberOfExecutingStreams != 0 || enqueuedCompletionEvents == [] {
        return;
      }
      var completionEvents := enqueuedCompletionEvents;
      released := released + completionEvents;
      enqueuedCompletionEvents := [];
    }

    /** The completion registered by appendStreamCompletion. */
    method Complete(event: nat)
      modifies this
      ensures Now() == Completed(old(Now()), event)
    {
      if numberOfExecutingStreams != 0 {
        enqueuedCompletionEvents := enqueuedCompletionEvents + [event];
        return;
      }
      released := released + [event];
    }
  }

  // ---------------------------------------------------------------- the protocol

  /** Outstanding parser invocations with the dispatches each still has before it, and the events asked for and
      delivered. */
  datatype World = World(state: StreamState, invocations: seq<nat>, requested: set<nat>, delivered: seq<nat>)

  /** Run(k): invocation k moves on by one dispatch, or runs its handler and finishes. */
  datatype Action = Register(hops: nat) | Receive | Run(k: nat) | Request(event: nat) | Deliver(k: nat)

  predicate Enabled(w: World, a: Action)
  {
    match a
    case Register(_) => true
    case Receive => true
    case Run(k) => k < |w.invocations|
    case Request(event) => event !in w.requested
    case Deliver(k) => k < |w.state.released|
  }

  function Next(w: World, a: Action): World
    requires Enabled(w, a)
  {
    match a
    case Register(hops) => w.(state := w.state.(streams := w.state.streams + [hops]))
    case Receive => w.(state := Received(w.state), invocations := w.invocations + w.state.streams)
    case Run(k) =>
      if w.invocations[k] > 0 then w.(invocations := w.invocations[k := w.invocations[k] - 1])
      else w.(state := Updated(w.state), invocations := Without(w.invocations, k))
    case Request(event) => w.(state := Completed(w.state, event), requested := w.requested + {event})
    case Deliver(k) =>
      w.(state := w.state.(released := Without(w.state.released, k)), delivered := w.delivered + [w.state.released[k]])
  }

  const INITIAL: World := World(StreamState([], 0, [], []), [], {}, [])

  predicate Enables(w: World, actions: seq<Action>)
    decreases |actions|
  {
    actions == [] || (Enabled(w, actions[0]) && Enables(Next(w, actions[0]), actions[1..]))
  }

  function Final(w: World, actions: seq<Action>): World
    requires Enables(w, actions)
    decreases |actions|
  {
    if actions == [] then w else Final(Next(w, actions[0]), actions[1..])
  }

  /** The counter counts the invocations captured and not yet finished; an event is only held while there are any; and
      each event asked for is in exactly one place. */
  ghost predicate Inv(w: World)
  {
    && w.state.numberOfExecutingStreams == |w.invocations|
    && (w.state.enqueuedCompletionEvents != [] ==> w.state.numberOfExecutingStreams > 0)
    && multiset(w.requested) ==
       multiset(w.state.enqueuedCompletionEvents) + multiset(w.state.released) + multiset(w.delivered)
  }

  lemma RunKeepsInv(w: World, k: nat)
    requires Inv(w) && Enabled(w, Run(k))
    ensures Inv(Next(w, Run(k)))
  {
  }

  lemma RequestKeepsInv(w: World, event: nat)
    requires Inv(w) && Enabled(w, Request(event))
    ensures Inv(Next(w, Request(event)))
  {
    assert multiset(w.requested + {event}) == multiset(w.requested) + multiset{event};
  }

  lemma DeliverKeepsInv(w: World, k: nat)
    requires Inv(w) && Enabled(w, Deliver(k))
    ensures Inv(Next(w, Deliver(k)))
  {
  }

  lemma NextKeepsInv(w: World, a: Action)
    requires Inv(w) && Enabled(w, a)
    ensures Inv(Next(w, a))
  {
    match a {
      case Run(k) => RunKeepsInv(w, k);
      case Request(event) => RequestKeepsInv(w, event);
      case Deliver(k) => DeliverKeepsInv(w, k);
      case _ =>
    }
  }

  lemma {:induction false} RunsKeepInv(w: World, actions: seq<Action>)
    requires Inv(w) && Enables(w, actions)
    ensures Inv(Final(w, actions))
    decreases |actions|
  {
    if actions == [] {
    } else {
      NextKeepsInv(w, actions[0]);
      RunsKeepInv(Next(w, actions[0]), actions[1..]);
    }
  }

  /** An event is released only by a step that leaves no parser invocation outstanding, in the order of asking. */
  lemma ReleasesWhenIdle(w: World, a: Action)
    requires Inv(w) && Enabled(w, a) && !a.Deliver?
    ensures var w' := Next(w, a);
            w'.state.released != w.state.released ==>
              && w'.invocations == []
              && w'.state.enqueuedCompletionEvents == []
              && w'.state.released ==
                 w.state.released + w.state.enqueuedCompletionEvents + (if a.Request? then [a.event] else [])
  {
    var w' := Next(w, a);
    if a.Run? && w'.state.released != w.state.released {
      assert |w'.invocations| == 0;
    }
  }

  /** Over every run the counter is exact, no event is delivered twice, and once the invocations have finished every
      event asked for has been released. */
  lemma EventsConserved(actions: seq<Action>)
    requires Enables(INITIAL, actions)
    ensures var w := Final(INITIAL, actions);
            && Inv(w)
            && (forall i, j :: 0 <= i < j < |w.delivered| ==> w.delivered[i] != w.delivered[j])
            && (w.invocations == [] ==> multiset(w.requested) == multiset(w.state.released) + multiset(w.delivered))
  {
    RunsKeepInv(INITIAL, actions);
    var w := Final(INITIAL, actions);
    forall i, j | 0 <= i < j < |w.delivered| ensures w.delivered[i] != w.delivered[j] {
      Distinct(w.delivered, w.requested, i, j);
    }
  }

  /** Nothing has been released to a stream yet, or no parser invocation is outstanding. */
  ghost predicate IdleOnceReleased(w: World)
  {
    w.state.released != [] || w.delivered != [] ==> w.invocations == []
  }

  ghost predicate AlwaysIdleOnceReleased(w: World, actions: seq<Action>)
    requires Enables(w, actions)
    decreases |actions|
  {
    IdleOnceReleased(w) && (actions == [] || AlwaysIdleOnceReleased(Next(w, actions[0]), actions[1..]))
  }

  /** Data for a registered parser never arrives once an event has been released. */
  predicate NoLateData(w: World, actions: seq<Action>)
    requires Enables(w, actions)
    decreases |actions|
  {
    actions == [] ||
    ((actions[0].Receive? && w.state.streams != [] ==> w.state.released == [] && w.delivered == []) &&
     NoLateData(Next(w, actions[0]), actions[1..]))
  }

  lemma StepStaysIdle(w: World, a: Action)
    requires Inv(w) && IdleOnceReleased(w) && Enabled(w, a)
    ensures IdleOnceReleased(Next(w, a)) <==>
            !(a.Receive? && w.state.streams != [] && (w.state.released != [] || w.delivered != []))
  {
    if !a.Receive? && !a.Deliver? {
      ReleasesWhenIdle(w, a);
    }
  }

  /** Exactly when a stream sees its completion after all of its values: at no time of the run is a parser outstanding
      after an event has been released, if and only if no data for a registered parser arrives after that. */
  lemma {:induction false} CompletionComesLast(w: World, actions: seq<Action>)
    requires Inv(w) && IdleOnceReleased(w) && Enables(w, actions)
    ensures AlwaysIdleOnceReleased(w, actions) <==> NoLateData(w, actions)
    decreases |actions|
  {
    if actions == [] {
    } else {
      var w' := Next(w, actions[0]);
      NextKeepsInv(w, actions[0]);
      StepStaysIdle(w, actions[0]);
      if IdleOnceReleased(w') {
        CompletionComesLast(w', actions[1..]);
      }
    }
  }

  /** In particular over every run from the start. */
  lemma StreamsSeeCompletionLast(actions: seq<Action>)
    requires Enables(INITIAL, actions)
    ensures AlwaysIdleOnceReleased(INITIAL, actions) <==> NoLateData(INITIAL, actions)
  {
    CompletionComesLast(INITIAL, actions);
  }

  /** And a run in which it is not so. */
  lemma LateDataIsOvertaken()
    ensures var actions := [Register(0), Request(1), Receive];
            Enables(INITIAL, actions) && !IdleOnceReleased(Final(INITIAL, actions))
  {
    var w1 := Next(INITIAL, Register(0));
    var w2 := Next(w1, Request(1));
    var w3 := Next(w2, Receive);
    var actions := [Register(0), Request(1), Receive];
    assert actions[1..] == [Request(1), Receive] && actions[1..][1..] == [Receive];
    assert Enables(w3, []) && Enables(w2, [Receive]) && Enables(w1, [Request(1), Receive]);
    assert Final(w2, [Receive]) == w3 && Final(w1, [Request(1), Receive]) == w3;
    assert Final(INITIAL, actions) == w3;
    assert w3.state.released == [1] && w3.invocations == [0];
  }

  // ---------------------------------------------------------------- every run delivers

  /** No further data arrives. */
  predicate NoData(actions: seq<Action>)
  {
    forall i :: 0 <= i < |actions| ==> !actions[i].Receive?
  }

  /** The steps the invocations still have before them, their handlers included. */
  function Steps(invocations: seq<nat>): nat
  {
    if invocations == [] then 0 else invocations[0] + 1 + Steps(invocations[1..])
  }

  lemma {:induction false} StepsAppend(a: seq<nat>, b: seq<nat>)
    ensures Steps(a + b) == Steps(a) + Steps(b)
  {
    if a == [] {
      assert a + b == b;
    } else {
      assert (a + b)[1..] == a[1..] + b;
      StepsAppend(a[1..], b);
    }
  }

  lemma StepsSplit(invocations: seq<nat>, k: nat, middle: seq<nat>)
    requires k < |invocations|
    ensures Steps(invocations[..k] + middle + invocations[k + 1..]) + invocations[k] + 1 ==
            Steps(invocations) + Steps(middle)
  {
    var before, after := invocations[..k], invocations[k + 1..];
    assert invocations == before + [invocations[k]] + after;
    StepsAppend(before, [invocations[k]]);
    StepsAppend(before + [invocations[k]], after);
    StepsAppend(before, middle);
    StepsAppend(before + middle, after);
    assert Steps([invocations[k]]) == invocations[k] + 1;
  }

  /** How many steps of invocations and deliveries are still due. */
  function Due(w: World): nat
  {
    Steps(w.invocations) + |w.state.enqueuedCompletionEvents| + |w.state.released|
  }

  predicate Settling(a: Action)
  {
    a.Run? || a.Deliver?
  }

  lemma RunIsOneLess(w: World, k: nat)
    requires Inv(w) && Enabled(w, Run(k))
    ensures Due(Next(w, Run(k))) == Due(w) - 1
  {
    var hops := w.invocations[k];
    if hops > 0 {
      StepsSplit(w.invocations, k, [hops - 1]);
      assert w.invocations[k := hops - 1] == w.invocations[..k] + [hops - 1] + w.invocations[k + 1..];
    } else {
      StepsSplit(w.invocations, k, []);
      assert Without(w.invocations, k) == w.invocations[..k] + [] + w.invocations[k + 1..];
    }
  }

  /** Each settling action is one of those due, and each event asked for makes one more due. */
  lemma StepIsDue(w: World, a: Action)
    requires Inv(w) && Enabled(w, a) && !a.Receive?
    ensures Due(Next(w, a)) == Due(w) + (if a.Request? then 1 else 0) - if Settling(a) then 1 else 0
  {
    match a {
      case Run(k) => RunIsOneLess(w, k);
      case _ =>
    }
  }

  function Settlings(actions: seq<Action>): nat
  {
    if actions == [] then 0 else (if Settling(actions[0]) then 1 else 0) + Settlings(actions[1..])
  }

  function Requests(actions: seq<Action>): nat
  {
    if actions == [] then 0 else (if actions[0].Request? then 1 else 0) + Requests(actions[1..])
  }

  /** However a run without new data interleaves, the settling actions taken and those still due make up those due
      at first and one for each event asked for meanwhile: no run has more of them. */
  lemma {:induction false} SettlingsAreDue(w: World, actions: seq<Action>)
    requires Inv(w) && Enables(w, actions) && NoData(actions)
    ensures Inv(Final(w, actions)) && Settlings(actions) + Due(Final(w, actions)) == Due(w) + Requests(actions)
    decreases |actions|
  {
    if actions == [] {
    } else {
      NextKeepsInv(w, actions[0]);
      StepIsDue(w, actions[0]);
      SettlingsAreDue(Next(w, actions[0]), actions[1..]);
    }
  }

  /** Every run without new data that goes on until no settling action is possible has delivered each event ever asked
      for, exactly once. */
  lemma EverySettlingDelivers(w: World, actions: seq<Action>)
    requires Inv(w) && Enables(w, actions) && NoData(actions)
    requires forall a :: Settling(a) ==> !Enabled(Final(w, actions), a)
    ensures var end := Final(w, actions);
            && multiset(end.delivered) == multiset(end.requested)
            && Settlings(actions) == Due(w) + Requests(actions)
  {
    SettlingsAreDue(w, actions);
    assert Settling(Run(0)) && Settling(Deliver(0));
  }
}
