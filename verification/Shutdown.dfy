/** `serveAndWatch`: a server and a watcher run beside the main routine, which waits for the first of them to end or
    for a cancellation, stops both and waits for both. Any order of exits, sends, receives and cancellation is a run.
    `Serve` is assumed to return once the server was shut down, `Watch` once its context is cancelled; each may also
    return earlier, with any error. */
module Shutdown {
  import opened Prelude

  datatype Error = Canceled | ServerClosed | Other(text: string)

  type Outcome = Option<Error>   // `None` is nil

  /** A goroutine that calls something and sends what it returned into a channel of capacity one. */
  datatype Routine = Running | Sending(outcome: Outcome) | Exited {
    function Rank(): nat {
      match this case Running => 2 case Sending(_) => 1 case Exited => 0
    }
  }

  datatype Main = Selecting | Stopping | ShuttingDown | DrainServer | DrainWatcher | Returned(result: Outcome) {
    function Rank(): nat {
      match this
      case Selecting => 5
      case Stopping => 4
      case ShuttingDown => 3
      case DrainServer => 2
      case DrainWatcher => 1
      case Returned(_) => 0
    }
  }

  /** A channel of capacity one, with how often something was sent into it and received from it. */
  datatype Channel = Channel(held: Option<Outcome>, sent: nat, received: nat)

  datatype State = State(main: Main, server: Routine, watcher: Routine, serving: Channel, watching: Channel,
                         cancelled: bool, shutDown: bool, serverDone: bool, watcherDone: bool, result: Outcome)

  /** `FromServer`, `FromWatcher` and `FromContext` are the cases of the select. */
  datatype Case = FromServer | FromWatcher | FromContext

  datatype Action =
    | CallerCancels
    | ServerReturns(outcome: Outcome) | ServerSends
    | WatcherReturns(outcome: Outcome) | WatcherSends
    | MainMoves(select: Case)

  const START := State(Selecting, Running, Running, Channel(None, 0, 0), Channel(None, 0, 0), false, false, false,
                       false, None)

  function Send(c: Channel, o: Outcome): Channel {
    c.(held := Some(o), sent := c.sent + 1)
  }

  function Receive(c: Channel): Channel {
    c.(held := None, received := c.received + 1)
  }

  /** Errors that mean an orderly end. */
  function Reported(o: Outcome): Outcome {
    if o == Some(Canceled) || o == Some(ServerClosed) then None else o
  }

  predicate Enabled(s: State, a: Action) {
    match a
    case CallerCancels => true
    case ServerReturns(_) => s.server.Running?
    case ServerSends => s.server.Sending? && s.serving.held.None?
    case WatcherReturns(_) => s.watcher.Running?
    case WatcherSends => s.watcher.Sending? && s.watching.held.None?
    case MainMoves(select) =>
      match s.main
      case Selecting =>
        (match select
         case FromServer => s.serving.held.Some?
         case FromWatcher => s.watching.held.Some?
         case FromContext => s.cancelled)
      case DrainServer => s.serverDone || s.serving.held.Some?
      case DrainWatcher => s.watcherDone || s.watching.held.Some?
      case Returned(_) => false
      case _ => true
  }

  function MainStep(s: State, select: Case): State
    requires Enabled(s, MainMoves(select))
  {
    match s.main
    case Selecting =>
      (match select
       case FromServer => s.(main := Stopping, result := s.serving.held.value, serverDone := true,
                             serving := Receive(s.serving))
       case FromWatcher => s.(main := Stopping, result := s.watching.held.value, watcherDone := true,
                              watching := Receive(s.watching))
       case FromContext => s.(main := Stopping))
    case Stopping => s.(main := ShuttingDown, cancelled := true)
    case ShuttingDown => s.(main := DrainServer, shutDown := true)
    case DrainServer => if s.serverDone then s.(main := DrainWatcher)
                        else s.(main := DrainWatcher, serving := Receive(s.serving))
    case DrainWatcher =>
      var t := if s.watcherDone then s else s.(watching := Receive(s.watching));
      t.(main := Returned(Reported(s.result)))
  }

  /** An action that is not possible leaves everything as it is. */
  function Next(s: State, a: Action): State {
    if !Enabled(s, a) then s
    else match a
      case CallerCancels => s.(cancelled := true)
      case ServerReturns(o) => s.(server := Sending(o))
      case ServerSends => s.(server := Exited, serving := Send(s.serving, s.server.outcome))
      case WatcherReturns(o) => s.(watcher := Sending(o))
      case WatcherSends => s.(watcher := Exited, watching := Send(s.watching, s.watcher.outcome))
      case MainMoves(select) => MainStep(s, select)
  }

  function Run(s: State, actions: seq<Action>): State
    decreases |actions|
  {
    if actions == [] then s else Run(Next(s, actions[0]), actions[1..])
  }

  // ---------------------------------------------------------------- the invariant

  /** A channel's one value is sent when its routine exits and received when main says so. */
  predicate ChannelOK(c: Channel, r: Routine, taken: bool) {
    && c.sent == (if r.Exited? then 1 else 0)
    && c.received == (if taken then 1 else 0)
    && (c.held.Some? <==> c.sent > c.received) && c.received <= c.sent
  }

  predicate Invariant(s: State) {
    && ChannelOK(s.serving, s.server, s.serverDone || s.main.DrainWatcher? || s.main.Returned?)
    && ChannelOK(s.watching, s.watcher, s.watcherDone || s.main.Returned?)
    && (s.main.Selecting? ==> !s.serverDone && !s.watcherDone && s.result == None)
    && (!s.main.Selecting? && !s.main.Stopping? ==> s.cancelled)
    && (s.main.DrainServer? || s.main.DrainWatcher? || s.main.Returned? ==> s.shutDown)
    && (!s.serverDone && !s.watcherDone ==> s.result == None)
    && (s.main.Stopping? && !s.serverDone && !s.watcherDone ==> s.cancelled)
    && (s.main.Returned? ==> s.main.result == Reported(s.result))
  }

  lemma MainKeepsInvariant(s: State, select: Case)
    requires Invariant(s) && Enabled(s, MainMoves(select))
    ensures Invariant(MainStep(s, select))
  {
  }

  lemma NextKeepsInvariant(s: State, a: Action)
    requires Invariant(s)
    ensures Invariant(Next(s, a))
  {
    hide MainStep;
    if a.MainMoves? && Enabled(s, a) { MainKeepsInvariant(s, a.select); }
  }

  lemma {:induction false} RunKeepsInvariant(s: State, actions: seq<Action>)
    requires Invariant(s)
    ensures Invariant(Run(s, actions))
    decreases |actions|
  {
    if actions != [] {
      NextKeepsInvariant(s, actions[0]);
      RunKeepsInvariant(Next(s, actions[0]), actions[1..]);
    }
  }

  /** In every order of events: when `serveAndWatch` has returned, both goroutines have ended, each channel was sent to
      and received from exactly once, the context is cancelled and the server shut down. */
  lemma ReturnsWithBothFinished(actions: seq<Action>)
    ensures var end := Run(START, actions);
            end.main.Returned? ==>
              && end.server.Exited? && end.watcher.Exited? && end.cancelled && end.shutDown
              && end.serving == Channel(None, 1, 1) && end.watching == Channel(None, 1, 1)
              && end.main.result != Some(Canceled) && end.main.result != Some(ServerClosed)
  {
    RunKeepsInvariant(START, actions);
  }

  // ---------------------------------------------------------------- it always returns

  /** Moves that the assumptions promise: main's own, sends, and the returns that are due. */
  predicate Due(s: State, a: Action) {
    Enabled(s, a) && match a
      case CallerCancels => false
      case ServerReturns(_) => s.shutDown
      case WatcherReturns(_) => s.cancelled
      case _ => true
  }

  function Work(s: State): nat {
    s.main.Rank() + s.server.Rank() + s.watcher.Rank()
  }

  /** Nothing has happened yet that could end the wait. */
  predicate StillServing(s: State) {
    s.main.Selecting? && s.server.Running? && s.watcher.Running? && !s.cancelled
  }

  lemma SomethingDue(s: State) returns (a: Action)
    requires Invariant(s) && !s.main.Returned? && !StillServing(s)
    ensures Due(s, a)
  {
    if s.server.Sending? { a := ServerSends; }
    else if s.watcher.Sending? { a := WatcherSends; }
    else if s.main.Selecting? {
      a := MainMoves(if s.server.Exited? then FromServer else if s.watcher.Exited? then FromWatcher else FromContext);
    } else if s.main.DrainServer? && s.server.Running? { a := ServerReturns(None); }
    else if s.main.DrainWatcher? && s.watcher.Running? { a := WatcherReturns(None); }
    else { a := MainMoves(FromContext); }
  }

  lemma MainShrinks(s: State, select: Case)
    requires Enabled(s, MainMoves(select))
    ensures Work(MainStep(s, select)) < Work(s)
  {
  }

  lemma WorkShrinks(s: State, a: Action)
    ensures Work(Next(s, a)) <= Work(s)
    ensures Enabled(s, a) && !a.CallerCancels? ==> Work(Next(s, a)) < Work(s)
  {
    hide MainStep;
    if a.MainMoves? && Enabled(s, a) { MainShrinks(s, a.select); }
  }

  lemma {:induction false} WorkBounded(s: State, actions: seq<Action>)
    ensures Work(Run(s, actions)) <= Work(s)
    decreases |actions|
  {
    if actions != [] {
      WorkShrinks(s, actions[0]);
      WorkBounded(Next(s, actions[0]), actions[1..]);
    }
  }

  /** There is no deadlock: once the server or the watcher has ended or there is a cancellation, some move is due until
      `serveAndWatch` has returned. Each move but a cancellation leaves less work, and there are at most nine of
      them. */
  lemma NeverStuck(actions: seq<Action>)
    ensures var end := Run(START, actions);
            (end.main.Returned? || StillServing(end) || exists a :: Due(end, a)) && Work(end) <= 9
    ensures forall a :: Enabled(Run(START, actions), a) && !a.CallerCancels? ==>
              Work(Run(START, actions + [a])) < Work(Run(START, actions))
  {
    RunKeepsInvariant(START, actions);
    WorkBounded(START, actions);
    var end := Run(START, actions);
    if !end.main.Returned? && !StillServing(end) { var a := SomethingDue(end); }
    forall a | Enabled(end, a) && !a.CallerCancels? ensures Work(Run(START, actions + [a])) < Work(end) {
      RunMore(START, actions, a);
      WorkShrinks(end, a);
    }
  }

  lemma {:induction false} RunMore(s: State, actions: seq<Action>, a: Action)
    ensures Run(s, actions + [a]) == Next(Run(s, actions), a)
    decreases |actions|
  {
    if actions == [] {
      assert [a][1..] == [];
      assert actions + [a] == [a];
      assert Run(s, [a]) == Run(Next(s, a), [a][1..]);
    } else {
      assert (actions + [a])[1..] == actions[1..] + [a];
      RunMore(Next(s, actions[0]), actions[1..], a);
    }
  }

  // ---------------------------------------------------------------- which error is returned

  /** The server or the watcher ended with this outcome somewhere in the run. */
  predicate Ended(actions: seq<Action>, o: Outcome) {
    ServerReturns(o) in actions || WatcherReturns(o) in actions
  }

  /** What a routine is sending, a channel is holding or main has taken came from an actual return. */
  predicate Honest(s: State, actions: seq<Action>) {
    && (s.server.Sending? ==> Ended(actions, s.server.outcome))
    && (s.watcher.Sending? ==> Ended(actions, s.watcher.outcome))
    && (s.serving.held.Some? ==> Ended(actions, s.serving.held.value))
    && (s.watching.held.Some? ==> Ended(actions, s.watching.held.value))
    && (s.serverDone || s.watcherDone ==> Ended(actions, s.result))
  }

  lemma {:induction false} RunIsHonest(actions: seq<Action>)
    ensures Honest(Run(START, actions), actions)
    decreases |actions|
  {
    if actions != [] {
      var n := |actions| - 1;
      var before := actions[..n];
      assert actions == before + [actions[n]];
      RunIsHonest(before);
      RunKeepsInvariant(START, before);
      RunMore(START, before, actions[n]);
      HonestStep(Run(START, before), before, actions[n]);
    }
  }

  lemma HonestLonger(s: State, before: seq<Action>, a: Action)
    requires Honest(s, before)
    ensures Honest(s, before + [a])
  {
    assert forall o :: Ended(before, o) ==> Ended(before + [a], o);
  }

  lemma HonestMain(s: State, actions: seq<Action>, select: Case)
    requires Honest(s, actions) && Invariant(s) && Enabled(s, MainMoves(select))
    ensures Honest(MainStep(s, select), actions)
  {
    hide Ended;
  }

  lemma HonestStep(s: State, before: seq<Action>, a: Action)
    requires Honest(s, before) && Invariant(s)
    ensures Honest(Next(s, a), before + [a])
  {
    hide MainStep, Invariant;
    HonestLonger(s, before, a);
    assert a in before + [a];
    if a.MainMoves? && Enabled(s, a) { HonestMain(s, before + [a], a.select); }
  }

  /** An error is reported only if the server or the watcher really ended with it, and never the two that mean an
      orderly end. */
  lemma ReportedErrorIsReal(actions: seq<Action>, e: Error)
    requires Run(START, actions).main == Returned(Some(e))
    ensures e.Other? && Ended(actions, Some(e))
  {
    RunIsHonest(actions);
    RunKeepsInvariant(START, actions);
  }

  lemma {:induction false} ResultStays(s: State, actions: seq<Action>)
    requires !s.main.Selecting?
    ensures Run(s, actions).result == s.result && !Run(s, actions).main.Selecting?
    decreases |actions|
  {
    if actions != [] { ResultStays(Next(s, actions[0]), actions[1..]); }
  }

  /** What the select picks decides what is returned, whatever comes after: the outcome it received, or nothing when it
      saw the cancellation first, even if a failure was waiting beside it. */
  lemma SelectDecides(before: seq<Action>, select: Case, after: seq<Action>)
    requires Run(START, before).main.Selecting? && Enabled(Run(START, before), MainMoves(select))
    ensures var s, end := Run(START, before), Run(START, before + [MainMoves(select)] + after);
            end.main.Returned? ==>
              end.main.result == match select
                                 case FromServer => Reported(s.serving.held.value)
                                 case FromWatcher => Reported(s.watching.held.value)
                                 case FromContext => None
  {
    var mid := before + [MainMoves(select)];
    RunKeepsInvariant(START, before);
    RunMore(START, before, MainMoves(select));
    RunConcat(START, mid, after);
    ResultStays(Run(START, mid), after);
    RunKeepsInvariant(START, mid + after);
  }

  /** A failure that the select receives is what is returned, word for word; an orderly end is success. */
  lemma ReceivedIsReturned(before: seq<Action>, after: seq<Action>, fromServer: bool, o: Outcome)
    requires var s := Run(START, before);
             s.main.Selecting? && (if fromServer then s.serving.held else s.watching.held) == Some(o)
    ensures var select := if fromServer then FromServer else FromWatcher;
            var end := Run(START, before + [MainMoves(select)] + after);
            end.main.Returned? ==>
              end.main.result == if o == Some(Canceled) || o == Some(ServerClosed) then None else o
  {
    SelectDecides(before, if fromServer then FromServer else FromWatcher, after);
  }

  lemma {:induction false} RunConcat(s: State, a: seq<Action>, b: seq<Action>)
    ensures Run(s, a + b) == Run(Run(s, a), b)
    decreases |a|
  {
    if a == [] {
      assert a + b == b;
    } else {
      assert (a + b)[1..] == a[1..] + b;
      RunConcat(Next(s, a[0]), a[1..], b);
    }
  }

  lemma {:induction false} RunSteps(s: State, actions: seq<Action>, states: seq<State>)
    requires |states| == |actions| + 1 && states[0] == s
    requires forall i | 0 <= i < |actions| :: states[i + 1] == Next(states[i], actions[i])
    ensures Run(s, actions) == states[|actions|]
    decreases |actions|
  {
    if actions != [] {
      assert forall i | 0 <= i < |actions| - 1 ::
               actions[1..][i] == actions[i + 1] && states[1..][i + 1] == states[i + 2];
      RunSteps(states[1], actions[1..], states[1..]);
    }
  }

  /** The server fails, and before main looks the caller cancels: the select may see the cancellation, and success is
      reported. */
  lemma FailureCanBeHidden(text: string)
    ensures exists actions :: ServerReturns(Some(Other(text))) in actions && Run(START, actions).main == Returned(None)
  {
    var failure := Some(Other(text));
    var move := MainMoves(FromContext);
    var actions := [ServerReturns(failure), ServerSends, CallerCancels, move, move, move,
                    WatcherReturns(Some(Canceled)),
                    WatcherSends, move, move];
    var s1 := START.(server := Sending(failure));
    var s2 := s1.(server := Exited, serving := Channel(Some(failure), 1, 0));
    var s3 := s2.(cancelled := true);
    var s4 := s3.(main := Stopping);
    var s5 := s4.(main := ShuttingDown);
    var s6 := s5.(main := DrainServer, shutDown := true);
    var s7 := s6.(watcher := Sending(Some(Canceled)));
    var s8 := s7.(watcher := Exited, watching := Channel(Some(Some(Canceled)), 1, 0));
    var s9 := s8.(main := DrainWatcher, serving := Channel(None, 1, 1));
    var s10 := s9.(main := Returned(None), watching := Channel(None, 1, 1));
    RunSteps(START, actions, [START, s1, s2, s3, s4, s5, s6, s7, s8, s9, s10]);
    assert actions[0] == ServerReturns(failure);
  }
}
