/** The registry object of connectrpc-health/src/static_checker.rs, each method one step of `Health`. */
module StaticChecker {
  import opened Options
  import opened Sequences
  import opened Health

  class Checker {
    var services: map<string, nat>
    var channels: seq<Channel>
    var watchers: seq<Watcher>

    ghost function View(): State
      reads this
    {
      State(services, channels, watchers)
    }

    /** The whole-process entry first, then the given names; a repeated name gets a new channel. */
    constructor (names: seq<string>)
      ensures Valid(View()) && watchers == []
      ensures services.Keys == {""} + Elements(names)
      ensures AllServing(View())
    {
      services, channels, watchers := map["" := 0], [Channel([Serving], true)], [];
      new;
      InitiallyServing();
      hide *;
      InsertAll(names);
    }

    method InsertAll(names: seq<string>)
      requires Valid(View()) && AllServing(View()) && watchers == []
      modifies this
      ensures Valid(View()) && AllServing(View()) && watchers == []
      ensures services.Keys == old(services.Keys) + Elements(names)
    {
      hide *;
      NoNames(names);
      for i := 0 to |names|
        invariant Valid(View()) && watchers == []
        invariant services.Keys == old(services.Keys) + Elements(names[..i])
        invariant AllServing(View())
      {
        assert names[..i + 1] == names[..i] + [names[i]];
        ElementsOfConcat(names[..i], [names[i]]);
        OneElement(names[i]);
        Insert(names[i]);
      }
      assert names[..|names|] == names;
    }

    /** Collecting into the map overwrites: an old sender is dropped, a new channel takes the name. */
    method Insert(name: string)
      requires Valid(View()) && AllServing(View())
      modifies this
      ensures Valid(View()) && AllServing(View())
      ensures watchers == old(watchers) && services.Keys == old(services.Keys) + {name}
    {
      InsertServes(View(), name);
      hide *;
      var removed := RemoveService(name);
      var added := RegisterWithStatus(name, Serving);
    }

    method RegisterWithStatus(name: string, status: Status) returns (added: bool)
      requires Valid(View())
      modifies this
      ensures Valid(View()) && View() == Step(old(View()), Register(name, status))
      ensures added <==> name !in old(services)
    {
      StepKeeps(View(), Register(name, status));
      added := name !in services;
      if added {
        services := services[name := |channels|];
        channels := channels + [Channel([status], true)];
      }
    }

    method SetStatus(name: string, status: Status) returns (known: bool)
      requires Valid(View())
      modifies this
      ensures Valid(View()) && View() == Step(old(View()), Op.SetStatus(name, status))
      ensures known <==> name in old(services)
      ensures known ==> Check(View(), name) == Some(status)
    {
      hide Tracks;
      StepKeeps(View(), Op.SetStatus(name, status));
      if name !in services {
        return false;
      }
      var i := services[name];
      if channels[i].Value() != status {
        channels := channels[i := channels[i].(history := channels[i].history + [status])];
      }
      return true;
    }

    method RemoveService(name: string) returns (present: bool)
      requires Valid(View())
      modifies this
      ensures Valid(View()) && View() == Step(old(View()), Remove(name))
      ensures present <==> name in old(services)
      ensures Check(View(), name) == None
    {
      hide Tracks;
      StepKeeps(View(), Remove(name));
      present := name in services;
      if present {
        var i := services[name];
        services := services - {name};
        channels := channels[i := channels[i].(open := false)];
      }
    }

    /** Goes through the registered senders one by one. */
    method Shutdown()
      requires Valid(View())
      modifies this
      ensures Valid(View()) && View() == Step(old(View()), Op.Shutdown)
    {
      ghost var s := View();
      StepKeeps(s, Op.Shutdown);
      var left := services.Keys;
      while left != {}
        invariant left <= services.Keys && services == s.services && watchers == s.watchers
        invariant PartlySent(s, left, channels)
        decreases left
      {
        hide Valid;
        var n :| n in left;
        SendNext(s, left, channels, n);
        channels := SendTo(channels, services[n], NotServing);
        left := left - {n};
      }
      AllSent(s, channels);
    }

    method CheckService(name: string) returns (r: Option<Status>)
      requires Valid(View())
      ensures r == Check(View(), name)
    {
      if name !in services {
        return None;
      }
      return Some(channels[services[name]].Value());
    }

    /** Subscribes to a name; the stream first answers with the status at its first poll. */
    method Watch(name: string) returns (watcher: Option<nat>)
      requires Valid(View())
      modifies this
      ensures Valid(View()) && View() == Step(old(View()), Subscribe(name))
      ensures watcher == if name in services then Some(|old(watchers)|) else None
    {
      hide Tracks;
      StepKeeps(View(), Subscribe(name));
      if name !in services {
        return None;
      }
      var i := services[name];
      watcher := Some(|watchers|);
      watchers := watchers + [Watcher(i, |channels[i].history| - 1, None, [])];
    }

    method PollWatcher(k: nat) returns (a: Answer)
      requires Valid(View()) && k < |watchers|
      modifies this
      ensures Valid(View()) && View() == Step(old(View()), Poll(k))
      ensures a == Polled(old(watchers)[k], channels[watchers[k].chan]).0
    {
      hide Tracks;
      StepKeeps(View(), Poll(k));
      var w := watchers[k];
      var c := channels[w.chan];
      var version := |c.history| - 1;
      if w.seen == Some(version) {
        return if c.open then Pending else End;
      }
      a := Item(c.Value());
      watchers := watchers[k := w.(seen := Some(version), received := w.received + [c.Value()])];
    }
  }

  lemma NoNames(names: seq<string>)
    ensures Elements(names[..0]) == {}
  {
  }

  lemma OneElement(name: string)
    ensures Elements([name]) == {name}
  {
  }

  ghost predicate AllServing(s: State)
    requires Valid(s)
  {
    forall n :: n in s.services ==> Check(s, n) == Some(Serving)
  }

  lemma InsertServes(s: State, name: string)
    requires Valid(s) && AllServing(s)
    ensures var r := Step(s, Remove(name));
            && Valid(r) && Valid(Step(r, Register(name, Serving)))
            && AllServing(Step(r, Register(name, Serving)))
            && Step(r, Register(name, Serving)).services.Keys == s.services.Keys + {name}
            && Step(r, Register(name, Serving)).watchers == s.watchers
  {
    hide *;
    RemoveServes(s, name);
    RegisterServes(Step(s, Remove(name)), name);
  }

  lemma RemoveServes(s: State, name: string)
    requires Valid(s) && AllServing(s)
    ensures var r := Step(s, Remove(name));
            && Valid(r) && AllServing(r) && r.services.Keys == s.services.Keys - {name} && r.watchers == s.watchers
  {
    hide Tracks;
    StepKeeps(s, Remove(name));
    var r := Step(s, Remove(name));
    hide Step;
    RemovedStep(s, name);
    forall n | n in r.services
      ensures Check(r, n) == Some(Serving)
    {
      assert Check(s, n) == Some(Serving);
    }
  }

  lemma RemovedStep(s: State, name: string)
    requires Valid(s)
    ensures var r := Step(s, Remove(name));
            && r.services == s.services - {name} && r.watchers == s.watchers && |r.channels| == |s.channels|
            && forall i :: 0 <= i < |s.channels| ==> r.channels[i].history == s.channels[i].history
  {
    hide Tracks;
  }

  lemma RegisterServes(s: State, name: string)
    requires Valid(s) && AllServing(s) && name !in s.services
    ensures var r := Step(s, Register(name, Serving));
            && Valid(r) && AllServing(r) && r.services.Keys == s.services.Keys + {name} && r.watchers == s.watchers
  {
    hide Tracks;
    StepKeeps(s, Register(name, Serving));
    var r := Step(s, Register(name, Serving));
    forall n | n in r.services
      ensures Check(r, n) == Some(Serving)
    {
      if n != name {
        assert Check(s, n) == Some(Serving);
      }
    }
  }

  lemma InitiallyServing()
    ensures var s := State(map["" := 0], [Channel([Serving], true)], []);
            Valid(s) && AllServing(s) && s.services.Keys == {""}
  {
    var s := State(map["" := 0], [Channel([Serving], true)], []);
    assert "" in s.services && s.services[""] == 0;
  }
}
