/**
  The health registry of connectrpc-health/src/static_checker.rs. Registry operations and
  subscriptions hold the registry's lock, and polls of the subscribed streams their channel's, so a
  concurrent history is a sequence of atomic steps in any order. Only a shutdown is no single step:
  polls may fall between its sends, and `ShutdownInSteps` says what that comes to.
 */
module Health {
  import opened Options
  import opened Sequences

  datatype Status = Unknown | Serving | NotServing

  /** A watch channel: every value it has held, the last one being current; open while it has a sender. */
  datatype Channel = Channel(history: seq<Status>, open: bool) {
    ghost predicate Valid() {
      history != [] && forall i :: 0 <= i < |history| - 1 ==> history[i] != history[i + 1]
    }

    function Value(): Status
      requires history != []
    {
      history[|history| - 1]
    }

    /** `send_if_modified`: an update that changes nothing is not one. */
    function Send(status: Status): Channel
      requires history != []
    {
      if Value() == status then this else this.(history := history + [status])
    }
  }

  /** A subscribed stream: its channel, the version current when it subscribed, and what it has received. */
  datatype Watcher = Watcher(chan: nat, from: nat, seen: Option<nat>, received: seq<Status>)

  datatype State = State(services: map<string, nat>, channels: seq<Channel>, watchers: seq<Watcher>)

  // ----- Steps -------------------------------------------------------------------------------

  datatype Op =
    | Register(name: string, status: Status)
    | SetStatus(name: string, status: Status)
    | Remove(name: string)
    | Shutdown
    | Subscribe(name: string)
    | Poll(watcher: nat)

  /** Registered names and open channels correspond one to one. */
  ghost predicate Registered(services: map<string, nat>, channels: seq<Channel>) {
    && (forall i :: 0 <= i < |channels| ==> channels[i].Valid())
    && (forall n :: n in services ==> services[n] < |channels| && channels[services[n]].open)
    && (forall m, n :: m in services && n in services && m != n ==> services[m] != services[n])
    && (forall i :: 0 <= i < |channels| && channels[i].open ==> exists n :: n in services && services[n] == i)
  }

  ghost predicate Valid(s: State) {
    && Registered(s.services, s.channels)
    && (forall w :: w in s.watchers ==> w.chan < |s.channels| && Tracks(w, s.channels[w.chan].history))
  }

  /** Strictly increasing positions of `history`, none before `from`. */
  predicate Picks(at: seq<nat>, from: nat, history: seq<Status>) {
    && (forall i :: 0 <= i < |at| ==> from <= at[i] < |history|)
    && (forall i, j :: 0 <= i < j < |at| ==> at[i] < at[j])
  }

  /** `received` is a subsequence of the history from version `from` on. */
  ghost predicate ReceivedFrom(received: seq<Status>, from: nat, history: seq<Status>, at: seq<nat>) {
    && Picks(at, from, history) && |at| == |received|
    && forall i :: 0 <= i < |at| ==> received[i] == history[at[i]]
  }

  /** What a watcher has received was picked from its channel's history, up to the version it saw last. */
  ghost predicate Tracks(w: Watcher, history: seq<Status>) {
    && w.from < |history|
    && (w.seen.None? <==> w.received == [])
    && exists at :: ReceivedFrom(w.received, w.from, history, at)
                    && (w.seen.Some? ==> at != [] && at[|at| - 1] == w.seen.value)
  }

  function OpenChannel(s: State, name: string, status: Status): State {
    s.(services := s.services[name := |s.channels|], channels := s.channels + [Channel([status], true)])
  }

  function SendTo(channels: seq<Channel>, i: nat, status: Status): seq<Channel>
    requires i < |channels| && channels[i].history != []
  {
    channels[i := channels[i].Send(status)]
  }

  /** What the stream of a watcher answers when polled: an item, nothing yet, or its end. */
  datatype Answer = Item(status: Status) | Pending | End

  function Polled(w: Watcher, c: Channel): (Answer, Watcher)
    requires c.history != []
  {
    var version := |c.history| - 1;
    if w.seen != Some(version) then (Item(c.Value()), w.(seen := Some(version), received := w.received + [c.Value()]))
    else (if c.open then Pending else End, w)
  }

  function Step(s: State, op: Op): State
    requires Valid(s)
  {
    match op
    case Register(name, status) => if name in s.services then s else OpenChannel(s, name, status)
    case SetStatus(name, status) =>
      if name in s.services then s.(channels := SendTo(s.channels, s.services[name], status)) else s
    case Remove(name) =>
      if name in s.services then
        var i := s.services[name];
        s.(services := s.services - {name}, channels := s.channels[i := s.channels[i].(open := false)])
      else s
    case Shutdown => s.(channels := SendToAll(s.channels, NotServing))
    case Subscribe(name) =>
      if name in s.services then
        var i := s.services[name];
        s.(watchers := s.watchers + [Watcher(i, |s.channels[i].history| - 1, None, [])])
      else s
    case Poll(k) =>
      if k < |s.watchers| then
        s.(watchers := s.watchers[k := Polled(s.watchers[k], s.channels[s.watchers[k].chan]).1])
      else s
  }

  /** Every open channel is updated: those are the registered ones. */
  function SendToAll(channels: seq<Channel>, status: Status): (r: seq<Channel>)
    requires forall i :: 0 <= i < |channels| ==> channels[i].history != []
    ensures |r| == |channels|
    ensures forall i :: 0 <= i < |channels| ==>
              r[i] == if channels[i].open then channels[i].Send(status) else channels[i]
  {
    seq(|channels|, i requires 0 <= i < |channels| =>
      if channels[i].open then channels[i].Send(status) else channels[i])
  }

  /** The answer of `check`. */
  function Check(s: State, name: string): Option<Status>
    requires Valid(s)
  {
    if name in s.services then Some(s.channels[s.services[name]].Value()) else None
  }

  // ----- What every step keeps ---------------------------------------------------------------

  lemma TracksLonger(w: Watcher, h: seq<Status>, more: seq<Status>)
    requires Tracks(w, h)
    ensures Tracks(w, h + more)
  {
    var at :| ReceivedFrom(w.received, w.from, h, at) && (w.seen.Some? ==> at != [] && at[|at| - 1] == w.seen.value);
    assert ReceivedFrom(w.received, w.from, h + more, at);
  }

  lemma PollTracks(w: Watcher, c: Channel)
    requires c.history != [] && Tracks(w, c.history)
    ensures Tracks(Polled(w, c).1, c.history)
  {
    var version := |c.history| - 1;
    if w.seen != Some(version) {
      var at :| ReceivedFrom(w.received, w.from, c.history, at)
                && (w.seen.Some? ==> at != [] && at[|at| - 1] == w.seen.value);
      var at' := at + [version];
      assert forall i :: 0 <= i < |at| ==> at[i] < version;
      assert ReceivedFrom(w.received + [c.Value()], w.from, c.history, at');
    }
  }

  lemma SendKeeps(c: Channel, status: Status)
    requires c.Valid()
    ensures var c' := c.Send(status);
            && c'.Valid() && c'.open == c.open && c'.Value() == status
            && (c'.history == c.history || c'.history == c.history + [status])
  {
  }

  /** The history of a channel only grows. */
  predicate Grows(a: seq<Channel>, b: seq<Channel>) {
    |a| <= |b| && forall i :: 0 <= i < |a| ==> a[i].history <= b[i].history
  }

  lemma WatchersKept(s: State, t: State)
    requires Valid(s) && Grows(s.channels, t.channels) && t.watchers == s.watchers
    ensures forall w :: w in t.watchers ==> w.chan < |t.channels| && Tracks(w, t.channels[w.chan].history)
  {
    forall w | w in t.watchers
      ensures w.chan < |t.channels| && Tracks(w, t.channels[w.chan].history)
    {
      var h, h' := s.channels[w.chan].history, t.channels[w.chan].history;
      TracksLonger(w, h, h'[|h|..]);
      assert h' == h + h'[|h|..];
    }
  }

  lemma NewChannelIsValid(status: Status)
    ensures Channel([status], true).Valid()
  {
  }

  lemma RegisterKeeps(s: State, name: string, status: Status)
    requires Valid(s) && name !in s.services
    ensures var t := OpenChannel(s, name, status);
            Registered(t.services, t.channels) && Grows(s.channels, t.channels)
  {
    NewChannelIsValid(status);
    RegisterCovers(s, name, status);
    hide Tracks, Channel.Valid;
  }

  lemma RegisterCovers(s: State, name: string, status: Status)
    requires Valid(s) && name !in s.services
    ensures var t := OpenChannel(s, name, status);
            forall i :: 0 <= i < |t.channels| && t.channels[i].open ==>
              exists n :: n in t.services && t.services[n] == i
  {
    hide Tracks, Channel.Valid;
    var t := OpenChannel(s, name, status);
    forall i | 0 <= i < |t.channels| && t.channels[i].open
      ensures exists n :: n in t.services && t.services[n] == i
    {
      if i < |s.channels| {
        var n :| n in s.services && s.services[n] == i;
        assert n in t.services && t.services[n] == i;
      } else {
        assert name in t.services && t.services[name] == i;
      }
    }
  }

  lemma SendToKeeps(s: State, i: nat, status: Status)
    requires Valid(s) && i < |s.channels|
    ensures var cs := SendTo(s.channels, i, status);
            Registered(s.services, cs) && Grows(s.channels, cs)
  {
    hide Tracks;
    SendKeeps(s.channels[i], status);
  }

  lemma RemoveKeeps(s: State, name: string)
    requires Valid(s) && name in s.services
    ensures var t := Step(s, Remove(name));
            Registered(t.services, t.channels) && Grows(s.channels, t.channels)
  {
    hide Tracks;
    var t := Step(s, Remove(name));
    forall i | 0 <= i < |t.channels| && t.channels[i].open
      ensures exists n :: n in t.services && t.services[n] == i
    {
      var n :| n in s.services && s.services[n] == i;
      assert n in t.services && t.services[n] == i;
    }
  }

  lemma ShutdownKeeps(s: State, status: Status)
    requires Valid(s)
    ensures var cs := SendToAll(s.channels, status);
            Registered(s.services, cs) && Grows(s.channels, cs)
  {
    hide Tracks;
    var cs := SendToAll(s.channels, status);
    forall i | 0 <= i < |cs|
      ensures cs[i].Valid() && s.channels[i].history <= cs[i].history && cs[i].open == s.channels[i].open
    {
      SendKeeps(s.channels[i], status);
    }
  }

  /** Every step keeps the registry valid, and no channel ever forgets a value. */
  lemma StepKeeps(s: State, op: Op)
    requires Valid(s)
    ensures Valid(Step(s, op)) && Grows(s.channels, Step(s, op).channels)
  {
    hide Tracks;
    var t := Step(s, op);
    match op {
      case Register(name, status) =>
        if name !in s.services { RegisterKeeps(s, name, status); WatchersKept(s, t); }
      case SetStatus(name, status) =>
        if name in s.services { SendToKeeps(s, s.services[name], status); WatchersKept(s, t); }
      case Remove(name) =>
        if name in s.services { RemoveKeeps(s, name); WatchersKept(s, t); }
      case Shutdown => ShutdownKeeps(s, NotServing); WatchersKept(s, t);
      case Subscribe(name) =>
        if name in s.services { NewTracks(s.services[name], s.channels[s.services[name]].history); }
      case Poll(k) =>
        if k < |s.watchers| { PollTracks(s.watchers[k], s.channels[s.watchers[k].chan]); }
    }
  }

  lemma NewTracks(chan: nat, h: seq<Status>)
    requires h != []
    ensures Tracks(Watcher(chan, |h| - 1, None, []), h)
  {
    assert ReceivedFrom([], |h| - 1, h, []);
  }

  // ----- Runs --------------------------------------------------------------------------------

  function Run(s: State, ops: seq<Op>): (t: State)
    requires Valid(s)
    ensures Valid(t)
    decreases |ops|
  {
    if ops == [] then s
    else
      StepKeeps(s, ops[0]);
      Run(Step(s, ops[0]), ops[1..])
  }

  lemma DrainedHasCurrent(w: Watcher, c: Channel)
    requires c.history != [] && Tracks(w, c.history)
    ensures exists at :: ReceivedFrom(w.received, w.from, c.history, at)
    ensures !Polled(w, c).0.Item? ==> w.received != [] && w.received[|w.received| - 1] == c.Value()
  {
    var at :| ReceivedFrom(w.received, w.from, c.history, at)
              && (w.seen.Some? ==> at != [] && at[|at| - 1] == w.seen.value);
  }

  /**
    In every reachable state, what a watcher has received is a subsequence of its channel's history
    from its subscription on, and a watcher with nothing left to read has received the current value.
   */
  lemma WatcherTheorem(s: State, ops: seq<Op>, k: nat)
    requires Valid(s)
    ensures var t := Run(s, ops);
            k < |t.watchers| ==>
              var w := t.watchers[k];
              && w.chan < |t.channels|
              && var c := t.channels[w.chan];
              && c.Valid()
              && (exists at :: ReceivedFrom(w.received, w.from, c.history, at))
              && (!Polled(w, c).0.Item? ==> w.received != [] && w.received[|w.received| - 1] == c.Value())
  {
    var t := Run(s, ops);
    hide Run, Step;
    if k < |t.watchers| {
      var w := t.watchers[k];
      var c := t.channels[w.chan];
      assert Tracks(w, c.history);
      DrainedHasCurrent(w, c);
    }
  }

  /** A poll delivers the value that is current at that moment, and never one twice in a row. */
  lemma PollDeliversCurrent(s: State, k: nat)
    requires Valid(s) && k < |s.watchers|
    ensures var c := s.channels[s.watchers[k].chan];
            var (a, w) := Polled(s.watchers[k], c);
            && (a.Item? ==> a.status == c.Value() && w.received == s.watchers[k].received + [c.Value()])
            && !Polled(w, c).0.Item?
            && (Polled(w, c).0.End? <==> !c.open)
  {
    assert Tracks(s.watchers[k], s.channels[s.watchers[k].chan].history);
  }

  lemma {:induction false} RunConcat(s: State, a: seq<Op>, b: seq<Op>)
    requires Valid(s)
    ensures Run(s, a + b) == Run(Run(s, a), b)
    decreases |a|
  {
    hide Valid, Step;
    if a == [] {
      assert a + b == b;
    } else {
      StepKeeps(s, a[0]);
      assert (a + b)[0] == a[0] && (a + b)[1..] == a[1..] + b;
      RunConcat(Step(s, a[0]), a[1..], b);
    }
  }

  lemma StepKeepsRegistration(s: State, op: Op, name: string)
    requires Valid(s) && name in s.services && op != Remove(name)
    ensures var t := Step(s, op); name in t.services && t.services[name] == s.services[name]
  {
    hide Tracks, SendToAll;
  }

  /**
    Until it is removed, a registered name keeps its channel: the channel stays open and only adds to
    its history, whatever else is registered, removed, updated or shut down.
   */
  lemma {:induction false} RegistrationKept(s: State, ops: seq<Op>, name: string)
    requires Valid(s) && name in s.services && Remove(name) !in ops
    ensures var t, i := Run(s, ops), s.services[name];
            && name in t.services && t.services[name] == i
            && i < |s.channels| && i < |t.channels| && t.channels[i].open
            && s.channels[i].history <= t.channels[i].history
    decreases |ops|
  {
    hide Tracks, Step;
    if ops != [] {
      StepKeeps(s, ops[0]);
      StepKeepsRegistration(s, ops[0], name);
      RegistrationKept(Step(s, ops[0]), ops[1..], name);
    }
  }

  lemma AlreadyRegistered(s: State, name: string, status: Status)
    requires Valid(s) && name in s.services
    ensures Run(s, [Register(name, status)]) == s
  {
    StepKeeps(s, Register(name, status));
    assert [Register(name, status)][1..] == [];
  }

  /**
    Registering a live name leaves no trace: wherever in a run it happens, as long as the name was not
    removed, the run ends in the very state it would have ended in without it.
   */
  lemma ReRegisterLeavesNoTrace(s: State, before: seq<Op>, name: string, status: Status, after: seq<Op>)
    requires Valid(s) && name in s.services && Remove(name) !in before
    ensures Run(s, before + [Register(name, status)] + after) == Run(s, before + after)
  {
    hide Valid, Step, Run;
    RegistrationKept(s, before, name);
    AlreadyRegistered(Run(s, before), name, status);
    RunConcat(s, before + [Register(name, status)], after);
    RunConcat(s, before, [Register(name, status)]);
    RunConcat(s, before, after);
  }

  /** A closed channel stays as it is. */
  lemma {:induction false} ClosedIsFrozen(s: State, ops: seq<Op>, i: nat)
    requires Valid(s) && i < |s.channels| && !s.channels[i].open
    ensures var t := Run(s, ops);
            && i < |t.channels| && t.channels[i] == s.channels[i]
            && forall n :: n in t.services ==> t.services[n] != i
    decreases |ops|
  {
    hide Tracks;
    if ops != [] {
      StepKeeps(s, ops[0]);
      ClosedStep(s, ops[0], i);
      ClosedIsFrozen(Step(s, ops[0]), ops[1..], i);
    }
  }

  lemma ClosedStep(s: State, op: Op, i: nat)
    requires Valid(s) && i < |s.channels| && !s.channels[i].open
    ensures var t := Step(s, op); i < |t.channels| && t.channels[i] == s.channels[i]
  {
    hide Tracks;
  }

  lemma StepKeepsWatcher(s: State, op: Op, k: nat)
    requires Valid(s) && k < |s.watchers|
    ensures var t := Step(s, op);
            && k < |t.watchers| && t.watchers[k].chan == s.watchers[k].chan
            && s.watchers[k].received <= t.watchers[k].received
  {
    hide Tracks, SendToAll;
  }

  lemma {:induction false} WatcherKeepsChannel(s: State, ops: seq<Op>, k: nat)
    requires Valid(s) && k < |s.watchers|
    ensures var t := Run(s, ops);
            && k < |t.watchers| && t.watchers[k].chan == s.watchers[k].chan
            && s.watchers[k].received <= t.watchers[k].received
    decreases |ops|
  {
    hide Tracks, Registered, Step, Polled;
    if ops != [] {
      StepKeeps(s, ops[0]);
      StepKeepsWatcher(s, ops[0], k);
      WatcherKeepsChannel(Step(s, ops[0]), ops[1..], k);
    }
  }

  /**
    Whatever happens after a removal, including registering the name again, a watcher from before it
    only ever receives what its old channel held at the removal.
   */
  lemma RemovalCutsWatchersOff(s: State, name: string, ops: seq<Op>, k: nat)
    requires Valid(s) && name in s.services && k < |s.watchers| && s.watchers[k].chan == s.services[name]
    ensures var i := s.services[name];
            var t := Run(s, [Remove(name)] + ops);
            && k < |t.watchers| && t.watchers[k].chan == i < |t.channels|
            && t.channels[i] == s.channels[i].(open := false)
            && (name in t.services ==> t.services[name] != i)
            && exists at :: ReceivedFrom(t.watchers[k].received, t.watchers[k].from, s.channels[i].history, at)
  {
    hide ReceivedFrom, Registered, Tracks, Polled;
    StepKeeps(s, Remove(name));
    var r := Step(s, Remove(name));
    RemovedIsClosed(s, name);
    assert ([Remove(name)] + ops)[1..] == ops;
    assert Run(s, [Remove(name)] + ops) == Run(r, ops);
    ClosedIsFrozen(r, ops, s.services[name]);
    WatcherKeepsChannel(r, ops, k);
    WatcherTheorem(r, ops, k);
  }

  lemma RemovedIsClosed(s: State, name: string)
    requires Valid(s) && name in s.services
    ensures var i, r := s.services[name], Step(s, Remove(name));
            && i < |s.channels| && i < |r.channels| && r.channels[i] == s.channels[i].(open := false)
            && r.watchers == s.watchers
  {
    hide Tracks;
  }

  /** After a shutdown every registered service, and no other, reports that it is not serving. */
  lemma ShutdownStopsAll(s: State)
    requires Valid(s)
    ensures var t := Run(s, [Shutdown]);
            forall n :: Check(t, n) == if n in s.services then Some(NotServing) else None
  {
    hide Tracks;
    StepKeeps(s, Shutdown);
    var t := Step(s, Shutdown);
    assert [Shutdown][1..] == [];
    assert Run(s, [Shutdown]) == t;
    hide Run;
    ShutdownChecks(s, t);
  }

  lemma ShutdownChecks(s: State, t: State)
    requires Valid(s) && Valid(t) && t == s.(channels := SendToAll(s.channels, NotServing))
    ensures forall n :: Check(t, n) == if n in s.services then Some(NotServing) else None
  {
    hide Tracks;
    forall n | n in t.services
      ensures Check(t, n) == Some(NotServing)
    {
      SendKeeps(s.channels[s.services[n]], NotServing);
    }
  }

  // ----- What a service and its watchers report ----------------------------------------------

  /** The answers of `check` after each operation, for every name. */
  lemma CheckAfter(s: State, op: Op, n: string)
    requires Valid(s)
    ensures Valid(Step(s, op))
    ensures Check(Step(s, op), n) ==
            match op {
              case Register(name, status) => if n == name && Check(s, n) == None then Some(status) else Check(s, n)
              case SetStatus(name, status) => if n == name && Check(s, n) != None then Some(status) else Check(s, n)
              case Remove(name) => if n == name then None else Check(s, n)
              case Shutdown => if Check(s, n) != None then Some(NotServing) else None
              case Subscribe(_) => Check(s, n)
              case Poll(_) => Check(s, n)
            }
  {
    hide Tracks, Channel.Valid;
    StepKeeps(s, op);
    match op {
      case Shutdown => ShutdownChecks(s, Step(s, op));
      case SetStatus(name, status) =>
        if name in s.services { UpdateChecks(s, name, status, n); }
      case _ =>
    }
  }

  lemma UpdateChecks(s: State, name: string, status: Status, n: string)
    requires Valid(s) && Valid(Step(s, SetStatus(name, status))) && name in s.services
    ensures Check(Step(s, SetStatus(name, status)), n) == if n == name then Some(status) else Check(s, n)
  {
    hide Tracks;
    SendKeeps(s.channels[s.services[name]], status);
  }

  lemma Subscribed(s: State, name: string)
    requires Valid(s) && name in s.services
    ensures var t, k := Step(s, Subscribe(name)), |s.watchers|;
            && Valid(t) && |t.watchers| == k + 1 && t.watchers[k].chan == s.services[name]
            && t.watchers[k].received == [] && t.services == s.services && t.channels == s.channels
  {
    hide Tracks;
    StepKeeps(s, Subscribe(name));
  }

  /**
    A subscription follows its name: as long as the name is not removed, whatever a poll of the new
    watcher delivers is what `check` answers for the name at that moment, and a watcher with nothing
    left to read has received just that.
   */
  lemma WatcherFollowsName(s: State, name: string, ops: seq<Op>)
    requires Valid(s) && name in s.services && Remove(name) !in ops
    ensures var t, k := Run(s, [Subscribe(name)] + ops), |s.watchers|;
            && k < |t.watchers| && t.watchers[k].chan < |t.channels| && t.channels[t.watchers[k].chan].history != []
            && var (w, c) := (t.watchers[k], t.channels[t.watchers[k].chan]);
            && var a := Polled(w, c).0;
            && (a.Item? ==> Check(t, name) == Some(a.status))
            && (!a.Item? ==> a == Pending && w.received != [] && Check(t, name) == Some(w.received[|w.received| - 1]))
  {
    hide Tracks, Registered, Step, ReceivedFrom;
    Subscribed(s, name);
    var r := Step(s, Subscribe(name));
    assert ([Subscribe(name)] + ops)[1..] == ops;
    assert Run(s, [Subscribe(name)] + ops) == Run(r, ops);
    hide Run;
    RegistrationKept(r, ops, name);
    WatcherKeepsChannel(r, ops, |s.watchers|);
    WatcherTheorem(r, ops, |s.watchers|);
  }

  /** A new subscription has something to read at once: the status of its name. */
  lemma FirstPoll(s: State, name: string)
    requires Valid(s) && name in s.services
    ensures var t, k := Step(s, Subscribe(name)), |s.watchers|;
            && |t.watchers| == k + 1 && t.watchers[k].chan < |t.channels|
            && t.channels[t.watchers[k].chan].history != []
            && var a := Polled(t.watchers[k], t.channels[t.watchers[k].chan]).0;
            a.Item? && Check(s, name) == Some(a.status)
  {
    hide Tracks;
  }

  // ----- A shutdown, send by send ------------------------------------------------------------

  /** The registered names outside `left` have been sent the shutdown status. */
  ghost predicate PartlySent(s: State, left: set<string>, channels: seq<Channel>)
    requires Valid(s)
  {
    && |channels| == |s.channels|
    && (forall n :: n in s.services ==>
          var c := s.channels[s.services[n]];
          channels[s.services[n]] == if n in left then c else c.Send(NotServing))
    && (forall i :: 0 <= i < |channels| && !s.channels[i].open ==> channels[i] == s.channels[i])
  }

  lemma SendNext(s: State, left: set<string>, channels: seq<Channel>, n: string)
    requires Valid(s) && PartlySent(s, left, channels) && n in left && n in s.services
    ensures s.services[n] < |channels| && channels[s.services[n]].history != []
    ensures PartlySent(s, left - {n}, SendTo(channels, s.services[n], NotServing))
  {
    hide Tracks;
  }

  /** Sending to every registered name reaches exactly the open channels. */
  lemma AllSent(s: State, channels: seq<Channel>)
    requires Valid(s) && PartlySent(s, {}, channels)
    ensures channels == SendToAll(s.channels, NotServing)
  {
    hide Tracks;
    forall i | 0 <= i < |channels|
      ensures channels[i] == SendToAll(s.channels, NotServing)[i]
    {
      if s.channels[i].open {
        var n :| n in s.services && s.services[n] == i;
      }
    }
  }

  /** What the loop of a shutdown does when it comes upon the names in this order. */
  function SendsOf(order: seq<string>): (ops: seq<Op>)
    ensures |ops| == |order| && forall i :: 0 <= i < |order| ==> ops[i] == SetStatus(order[i], NotServing)
  {
    seq(|order|, i requires 0 <= i < |order| => SetStatus(order[i], NotServing))
  }

  function WithoutPolls(ops: seq<Op>): seq<Op> {
    if ops == [] then []
    else (if ops[0].Poll? then [] else [ops[0]]) + WithoutPolls(ops[1..])
  }

  lemma PollKeepsRegistry(s: State, k: nat)
    requires Valid(s)
    ensures Step(s, Poll(k)).services == s.services && Step(s, Poll(k)).channels == s.channels
  {
    hide Tracks, Polled;
  }

  lemma SendStep(s: State, name: string)
    requires Valid(s) && name in s.services
    ensures var t := Step(s, SetStatus(name, NotServing));
            && s.services[name] < |s.channels| && s.channels[s.services[name]].history != []
            && t == s.(channels := SendTo(s.channels, s.services[name], NotServing))
  {
    hide Tracks;
  }

  lemma FirstSend(order: seq<string>)
    requires order != [] && NoDuplicates(order)
    ensures SendsOf(order) == [SetStatus(order[0], NotServing)] + SendsOf(order[1..])
    ensures Elements(order[1..]) == Elements(order) - {order[0]} && order[0] in Elements(order)
    ensures NoDuplicates(order[1..])
  {
    assert order == [order[0]] + order[1..];
  }

  lemma FirstIsSend(order: seq<string>, ops: seq<Op>)
    requires NoDuplicates(order) && WithoutPolls(ops) == SendsOf(order)
    requires ops != [] && !ops[0].Poll?
    ensures order != [] && ops[0] == SetStatus(order[0], NotServing)
    ensures WithoutPolls(ops[1..]) == SendsOf(order[1..])
  {
    assert WithoutPolls(ops) == [ops[0]] + WithoutPolls(ops[1..]);
    assert |order| == |WithoutPolls(ops)| > 0;
    FirstSend(order);
    assert WithoutPolls(ops)[1..] == WithoutPolls(ops[1..]);
    assert SendsOf(order)[1..] == SendsOf(order[1..]);
  }

  /** From a partly finished loop to its end, with polls anywhere in between. */
  lemma {:induction false} SendsReach(s: State, t: State, order: seq<string>, ops: seq<Op>)
    requires Valid(s) && Valid(t) && t.services == s.services
    requires NoDuplicates(order) && Elements(order) <= s.services.Keys
    requires PartlySent(s, Elements(order), t.channels) && WithoutPolls(ops) == SendsOf(order)
    ensures var u := Run(t, ops);
            && u.services == s.services && PartlySent(s, {}, u.channels)
            && ((forall op :: op in ops ==> !op.Poll?) ==> u.watchers == t.watchers)
    decreases |ops|
  {
    hide Valid, PartlySent, Step, SendTo;
    if ops == [] {
      assert |SendsOf(order)| == 0;
      assert order == [] && Elements(order) == {};
    } else {
      StepKeeps(t, ops[0]);
      assert ops[0] in ops;
      if ops[0].Poll? {
        PollKeepsRegistry(t, ops[0].watcher);
        SendsReach(s, Step(t, ops[0]), order, ops[1..]);
      } else {
        FirstIsSend(order, ops);
        FirstSend(order);
        SendStep(t, order[0]);
        SendNext(s, Elements(order), t.channels, order[0]);
        SendsReach(s, Step(t, ops[0]), order[1..], ops[1..]);
      }
    }
  }

  /**
    The loop of a shutdown sends to the registered names one by one, in some order, while streams may
    be polled in between: a run of updates and polls. It leaves the registry as the single step does,
    and without polls it is that step.
   */
  lemma ShutdownInSteps(s: State, order: seq<string>, ops: seq<Op>)
    requires Valid(s) && NoDuplicates(order) && Elements(order) == s.services.Keys
    requires WithoutPolls(ops) == SendsOf(order)
    ensures Run(s, ops).services == s.services && Run(s, ops).channels == Step(s, Shutdown).channels
    ensures ops == SendsOf(order) ==> Run(s, ops) == Step(s, Shutdown)
  {
    hide Run, Tracks;
    assert PartlySent(s, s.services.Keys, s.channels);
    SendsReach(s, s, order, ops);
    AllSent(s, Run(s, ops).channels);
    if ops == SendsOf(order) {
      assert forall op :: op in ops ==> !op.Poll?;
    }
  }
}
